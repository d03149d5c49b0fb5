/**
 The patched program against the program as it was loaded, reading every patched site as the word its trampoline
 remembers. Both directions are here: what a step of the patched process is to the original program, and which steps
 of the original program the patched process can take.
 */
module Simulation {
  import opened Words
  import opened IoOps
  import opened Arm
  import opened Trampoline
  import opened Linkpages
  import opened Layout
  import Clock
  import Device

  // ----- one instruction, all side conditions met

  /** The emulated instruction writes neither sp nor slot 15, which holds the flags. */
  predicate Supported(op: Word) {
    && !(Bit(op, L_BIT) && Rd(op) in {SP, PC})
    && !(IsWordForm(op) && !Bit(op, P_BIT) && Rn(op) in {SP, PC})
  }

  /** The interpreter changes no slot but those of the loaded and the post-indexed register. */
  lemma SlotKept<D>(bus: Bus<D>, op: Word, frame: Frame, dev: D, i: nat)
    requires HandleOp(bus, op, frame, dev).Resumed? && i < 16
    requires !(Bit(op, L_BIT) && Rd(op) == i) && !(IsWordForm(op) && !Bit(op, P_BIT) && Rn(op) == i)
    ensures HandleOp(bus, op, frame, dev).frame[i] == frame[i]
  {
    hide Bit, Field, HandlerGuard, HandlerOffset, Negated;
  }

  lemma FlagsRestored(cpsr: Word, junk: Word)
    ensures WithFlags(WithFlags(cpsr, junk), cpsr) == cpsr
  {
  }

  ghost predicate SameOutside(m: Mem, m': Mem, low: int, high: int) {
    forall a | a < low || high <= a :: At(m', a) == At(m, a)
  }

  /** Only the dead room below the stack pointer may differ. */
  ghost predicate DeadRoom(m: Mem, m': Mem, sp: Word, depth: nat) {
    var base := sp as int - FRAME_GAP;
    SameOutside(m, m', base - depth, base + 64)
  }

  /** What a trapped device instruction does to the program: the interpreter's registers and device, and pc + 4. */
  ghost predicate Effect<D>(bus: Bus<D>, g: Cpu<D>, g': Cpu<D>) {
    var handled := HandleOp(bus, At(g.mem, g.pc), SavedFrame(g), g.dev);
    && handled.Resumed? && g'.r == handled.frame[..15] && g'.dev == handled.dev
    && g'.cpsr == g.cpsr && g'.pc == Plus(g.pc, 4)
  }

  ghost predicate DeviceStep<D>(bus: Bus<D>, g: Cpu<D>, g': Cpu<D>, depth: nat) {
    Effect(bus, g, g') && DeadRoom(g.mem, g'.mem, g.r[SP], depth)
  }

  /** The trampoline's whole effect: r0-r14, flags, device and pc are the interpreter's, and memory stays put. */
  lemma TrapIsHandled<D>(bus: Bus<D>, host: Host, k: Clobber, s: Cpu<D>, p: Place)
    requires TrampolineAt(s.mem, host, p) && StubAt(s.mem, host) && s.pc == p.site
    requires Safe(s.r[SP], k.depth, host, p) && Supported(p.op)
    requires HandleOp(bus, p.op, SavedFrame(s), s.dev).Resumed?
    ensures RunFor(bus, host, k, s, 24).Some?
    ensures var t := RunFor(bus, host, k, s, 24).value; var handled := HandleOp(bus, p.op, SavedFrame(s), s.dev);
      && t.r == handled.frame[..15] && t.dev == handled.dev && t.cpsr == s.cpsr && t.pc == Plus(p.site, 4)
      && DeadRoom(s.mem, t.mem, s.r[SP], k.depth)
  {
    hide TrampolineAt, StubAt, Safe, Supported, HandleOp, RunFor, WithFlags, Plus, FrameMem, AfterCall, FrameAt, At;
    hide Aligned, Rn, Rd, Bit, IsWordForm;
    var handled := HandleOp(bus, p.op, SavedFrame(s), s.dev);
    var frame, base := handled.frame, s.r[SP] as int - FRAME_GAP;
    assert frame[SP] == s.r[SP] && frame[FLAGS] == s.cpsr by { SupportedKeeps(bus, p.op, SavedFrame(s), s.dev); }
    assert Aligned(base + 4 * LR) && s.r[SP] >= FRAME_GAP && Plus(s.r[SP], -FRAME_GAP) == base by {
      SafeBase(s.r[SP], k.depth, host, p);
      FrameAligned(base);
    }
    TrappedRun(bus, host, k, s, p, frame, handled.dev);
    var t := Trapped(s, k, p, frame, handled.dev);
    FlagsRestored(s.cpsr, k.flags);
    TrappedMemory(s, k, p, frame, handled.dev, base);
    assert t.r == frame[..15];
  }

  lemma SupportedKeeps<D>(bus: Bus<D>, op: Word, frame: Frame, dev: D)
    requires HandleOp(bus, op, frame, dev).Resumed? && Supported(op)
    ensures var frame' := HandleOp(bus, op, frame, dev).frame; frame'[SP] == frame[SP] && frame'[FLAGS] == frame[FLAGS]
  {
    hide HandleOp, Rn, Rd, Bit, IsWordForm;
    SlotKept(bus, op, frame, dev, SP);
    SlotKept(bus, op, frame, dev, FLAGS);
  }

  lemma TrappedMemory<D>(s: Cpu<D>, k: Clobber, p: Place, frame: Frame, dev: D, base: int)
    requires base == s.r[SP] as int - FRAME_GAP == Plus(s.r[SP], -FRAME_GAP)
    ensures var m := Trapped(s, k, p, frame, dev).mem;
      DeadRoom(s.mem, m, s.r[SP], k.depth) && At(m, base + 4 * LR) == frame[LR]
  {
    hide FrameMem, AfterCall, FrameAt, At, Plus, SavedFrame, WithFlags;
    var m := FrameMem(s, p.c, Plus(p.c, 28), base);
    FrameSaved(s, p.c, Plus(p.c, 28), base);
    CallKeeps(m, base, frame, k);
    CallLeaves(m, base, frame, k, LR);
  }

  lemma FrameAligned(base: int)
    requires Aligned(base)
    ensures Aligned(base + 4 * LR)
  {
  }

  // ----- the two machines

  /** The patched process: the machine, and the patcher's bookkeeping beside it. */
  datatype Process<+D> = Process(cpu: Cpu<D>, alloc: Alloc, placed: set<Place>, n0: nat, n1: nat)

  ghost predicate Sound<D>(plan: Plan, s: Process<D>) {
    Consistent(plan, Patcher(s.cpu.mem, s.alloc), s.placed, s.n0, s.n1)
  }

  predicate PatchedAt(placed: set<Place>, a: int) {
    exists p | p in placed :: p.site == a
  }

  ghost function OpAt(placed: set<Place>, a: int): Word
    requires PatchedAt(placed, a)
  {
    var p :| p in placed && p.site == a;
    p.op
  }

  /** Memory as the program's author knows it: no branches at the sites, no linkpages. */
  ghost function Unpatched(plan: Plan, m: Mem, placed: set<Place>): Mem {
    imap a: int :: if PatchedAt(placed, a) then OpAt(placed, a) else if plan.OutsideRegions(a, 1) then At(m, a) else 0
  }

  /** The state of the original program that a patched process stands for. */
  ghost function Original<D>(plan: Plan, s: Process<D>): Cpu<D> {
    s.cpu.(mem := Unpatched(plan, s.cpu.mem, s.placed))
  }

  /** How the hardware takes the instruction at pc: it runs, faults on a device address, or anything else happens. */
  datatype Native<+D> = Ran(next: Cpu<D>) | DeviceFault(addr: Word) | Other

  /** The original program's device instructions trap; one whose condition fails is skipped either way. */
  ghost predicate Traps<D>(native: Cpu<D> -> Native<D>, g: Cpu<D>) {
    native(g).DeviceFault? || HandlerGuard(At(g.mem, g.pc), g.cpsr) == Skip
  }

  /** One step of the original program with its device accesses trapped; memory below the frame is volatile. */
  ghost predicate GuestStep<D>(native: Cpu<D> -> Native<D>, bus: Bus<D>, g: Cpu<D>, g': Cpu<D>, depth: nat) {
    || native(g) == Ran(g')
    || (Traps(native, g) && DeviceStep(bus, g, g', depth))
  }

  /** The original program stands still, but for the stack a signal may have been delivered on. */
  ghost predicate Stands<D>(g: Cpu<D>, g': Cpu<D>, depth: nat) {
    g' == g.(mem := g'.mem) && SameOutside(g.mem, g'.mem, g.r[SP] as int - depth, g.r[SP])
  }

  // ----- what an instruction looks at

  ghost predicate SameOn<D>(g: Cpu<D>, h: Cpu<D>, foot: iset<int>) {
    h == g.(mem := h.mem) && forall a | a in foot :: At(h.mem, a) == At(g.mem, a)
  }

  ghost predicate KeepsOutside(m: Mem, m': Mem, foot: iset<int>) {
    m.Keys <= m'.Keys && forall a | a !in foot :: At(m', a) == At(m, a)
  }

  ghost predicate SameOutcome<D>(native: Cpu<D> -> Native<D>, g: Cpu<D>, h: Cpu<D>, foot: iset<int>) {
    match native(g)
    case Ran(g') =>
      native(h).Ran? && var h' := native(h).next;
      && h' == g'.(mem := h'.mem) && KeepsOutside(h.mem, h'.mem, foot)
      && forall a | a in foot :: At(h'.mem, a) == At(g'.mem, a)
    case _ => native(h) == native(g)
  }

  /** The instruction at g's pc depends on, and changes, no memory but the addresses in foot. */
  ghost predicate Footprint<D(!new)>(native: Cpu<D> -> Native<D>, g: Cpu<D>, foot: iset<int>) {
    forall h | SameOn(g, h, foot) :: SameOutcome(native, g, h, foot)
  }

  /** The addresses the patcher relies on: patched sites, linkpages and the stub. */
  ghost predicate Relied(plan: Plan, placed: set<Place>, a: int) {
    PatchedAt(placed, a) || !plan.OutsideRegions(a, 1) || !Clear(plan.host.stub, plan.host.stub as int + 60, a, 1)
  }

  ghost predicate NoneRelied(plan: Plan, placed: set<Place>, foot: iset<int>) {
    forall a | a in foot :: !Relied(plan, placed, a)
  }

  // ----- the steps of the patched process

  /** The addresses from low up to high hold no linkpage, no stub and no patched site. */
  ghost predicate RoomClear(plan: Plan, placed: set<Place>, low: int, high: int) {
    && (forall i | 0 <= i < 2 && Wanted(plan.bases, i) :: Clear(low, high, plan.bases.Base(i), REGION_SIZE))
    && Clear(low, high, plan.host.stub, 60)
    && forall p | p in placed :: Clear(low, high, p.site, 4)
  }

  /** The stack has room for frame and handler, away from the linkpages, the stub and all patched sites. */
  ghost predicate StackClear(plan: Plan, placed: set<Place>, sp: Word, depth: nat) {
    var base := sp as int - FRAME_GAP;
    && Aligned(base) && depth <= base && sp < TOP
    && RoomClear(plan, placed, base - depth, base + 64)
  }

  /** The process runs a patched site to the end of its trampoline, whatever the instruction there addresses now. */
  ghost predicate SiteStep<D>(bus: Bus<D>, plan: Plan, k: Clobber, s: Process<D>, s': Process<D>) {
    && (exists p | p in s.placed :: p.site == s.cpu.pc && Supported(p.op))
    && StackClear(plan, s.placed, s.cpu.r[SP], k.depth)
    && RunFor(bus, plan.host, k, s.cpu, 24) == Some(s'.cpu) && s' == s.(cpu := s'.cpu)
  }

  /** An instruction that is not patched runs, and has nothing to do with what the patcher relies on. */
  ghost predicate NativeStep<D(!new)>(native: Cpu<D> -> Native<D>, plan: Plan, s: Process<D>, s': Process<D>) {
    && !PatchedAt(s.placed, s.cpu.pc) && native(s.cpu) == Ran(s'.cpu) && s' == s.(cpu := s'.cpu)
    && exists foot :: Footprint(native, s.cpu, foot) && NoneRelied(plan, s.placed, foot)
  }

  /** The signal handler's own effect: it patches the faulting instruction. */
  ghost predicate PatchStep<D>(native: Cpu<D> -> Native<D>, plan: Plan, selfStart: Word, selfEnd: Word,
                               s: Process<D>, s': Process<D>) {
    var before, pc := Patcher(s.cpu.mem, s.alloc), s.cpu.pc;
    |s.alloc.regions| == 2 && var i := Chosen(s.alloc, pc);
    && Fresh(plan, s.placed, pc) && native(s.cpu).DeviceFault?
    && Segv(plan.host, selfStart, selfEnd, before, pc, native(s.cpu).addr) == Patched(Patcher(s'.cpu.mem, s'.alloc))
    && i < 2 && s'.placed == s.placed + {NewPlace(before, i, pc)}
    && s'.n0 == (if i == 0 then s.n0 + 1 else s.n0) && s'.n1 == (if i == 1 then s.n1 + 1 else s.n1)
    && s'.cpu == s.cpu.(mem := s'.cpu.mem)
  }

  /** Memory once a signal has been delivered on the stack and its handler has returned. */
  ghost function Signalled(m: Mem, sp: Word, k: Clobber): Mem {
    imap a: int :: if sp as int - k.depth <= a < sp then At(k.stack, a) else At(m, a)
  }

  /** The signal handler patches the faulting instruction, and execution resumes at the same place. */
  ghost predicate FaultStep<D>(native: Cpu<D> -> Native<D>, plan: Plan, selfStart: Word, selfEnd: Word,
                               k: Clobber, s: Process<D>, s': Process<D>) {
    var sp := s.cpu.r[SP];
    exists m :: PatchStep(native, plan, selfStart, selfEnd, s, WithMem(s', m)) && s'.cpu.mem == Signalled(m, sp, k)
                && RoomClear(plan, s'.placed, sp as int - k.depth, sp)
  }

  function WithMem<D>(s: Process<D>, m: Mem): Process<D> {
    s.(cpu := s.cpu.(mem := m))
  }

  ghost predicate ProcessStep<D(!new)>(native: Cpu<D> -> Native<D>, bus: Bus<D>, plan: Plan, selfStart: Word,
                                       selfEnd: Word, k: Clobber, s: Process<D>, s': Process<D>) {
    || NativeStep(native, plan, s, s')
    || SiteStep(bus, plan, k, s, s')
    || FaultStep(native, plan, selfStart, selfEnd, k, s, s')
  }

  // ----- refinement

  ghost predicate ReliedKept(plan: Plan, placed: set<Place>, m: Mem, m': Mem) {
    forall a | Relied(plan, placed, a) :: At(m', a) == At(m, a)
  }

  lemma StandingStays(plan: Plan, m: Mem, m': Mem, alloc: Alloc, placed: set<Place>, p: Place)
    requires p in placed && Standing(plan, Patcher(m, alloc), p) && ReliedKept(plan, placed, m, m')
    ensures Standing(plan, Patcher(m', alloc), p)
  {
    hide TrampolineAt, At, Plan.Guest;
    var j := if plan.Handed(alloc, 0, p) then 0 else 1;
    assert plan.Handed(alloc, j, p);
    forall a | p.page <= a < p.c as int + ENTRY_SIZE ensures At(m', a) == At(m, a) {
      assert !Clear(plan.bases.Base(j), plan.bases.Base(j) + REGION_SIZE, a, 1);
      assert Relied(plan, placed, a);
    }
    assert Relied(plan, placed, p.site);
    TrampolineKept(m, m', plan.host, p);
  }

  lemma SoundStays<D>(plan: Plan, s: Process<D>, s': Process<D>)
    requires Sound(plan, s) && ReliedKept(plan, s.placed, s.cpu.mem, s'.cpu.mem) && s' == s.(cpu := s'.cpu)
    ensures Sound(plan, s')
  {
    hide Standing, At, AllocAfter, Apart, MakeJmp;
    forall p | p in s.placed ensures Standing(plan, Patcher(s'.cpu.mem, s.alloc), p) {
      StandingStays(plan, s.cpu.mem, s'.cpu.mem, s.alloc, s.placed, p);
    }
    var stub := plan.host.stub;
    forall a | stub <= a < stub as int + 60 ensures At(s'.cpu.mem, a) == At(s.cpu.mem, a) {
      assert Relied(plan, s.placed, a);
    }
    WordsStay(s.cpu.mem, s'.cpu.mem, stub, StubWords(MakeJmp(Plus(stub, 36), plan.host.entry, true).value));
    HeaderStays(plan, s, s', 0);
    HeaderStays(plan, s, s', 1);
  }

  lemma HeaderStays<D>(plan: Plan, s: Process<D>, s': Process<D>, i: nat)
    requires i < 2 && plan.Valid() && Fits(s.n0, s.n1) && s.alloc == AllocAfter(plan.bases, s.n0, s.n1)
    requires Headed(plan, Patcher(s.cpu.mem, s.alloc), i)
    requires ReliedKept(plan, s.placed, s.cpu.mem, s'.cpu.mem) && s'.alloc == s.alloc
    ensures Headed(plan, Patcher(s'.cpu.mem, s'.alloc), i)
  {
    hide At, RegionAfter, Aligned;
    if Available(s.alloc, i) {
      PlaceFits(plan, s.n0, s.n1, i);
      var a := s.alloc.regions[i].value.page as int + 4;
      assert !Clear(plan.bases.Base(i), plan.bases.Base(i) + REGION_SIZE, a, 1);
      assert Relied(plan, s.placed, a);
    }
  }

  /** The handler changes nothing that the original program can see, and keeps the process sound. */
  lemma PatchIsInvisible<D>(native: Cpu<D> -> Native<D>, plan: Plan, selfStart: Word, selfEnd: Word,
                            s: Process<D>, s': Process<D>)
    requires Sound(plan, s) && PatchStep(native, plan, selfStart, selfEnd, s, s')
    ensures Sound(plan, s') && Original(plan, s') == Original(plan, s)
    ensures PatchedAt(s'.placed, s.cpu.pc)
  {
    hide Consistent, Segv, At, Plan.OutsideRegions, Plan.Guest;
    var before, after := Patcher(s.cpu.mem, s.alloc), Patcher(s'.cpu.mem, s'.alloc);
    var pc, i := s.cpu.pc, Chosen(s.alloc, s.cpu.pc);
    var p := NewPlace(before, i, pc);
    PatchKeeps(plan, selfStart, selfEnd, before, s.placed, s.n0, s.n1, pc, native(s.cpu).addr, after);
    forall a ensures Unpatched(plan, s'.cpu.mem, s'.placed)[a] == Unpatched(plan, s.cpu.mem, s.placed)[a] {
      SameWord(plan, s, s', i, p, a);
    }
  }

  /** Changes in a clear room touch nothing that the patcher relies on. */
  lemma RoomIsFree(plan: Plan, placed: set<Place>, m: Mem, m': Mem, low: int, high: int)
    requires RoomClear(plan, placed, low, high) && SameOutside(m, m', low, high)
    ensures ReliedKept(plan, placed, m, m')
    ensures SameOutside(Unpatched(plan, m, placed), Unpatched(plan, m', placed), low, high)
  {
    hide At;
    forall a | Relied(plan, placed, a) ensures At(m', a) == At(m, a) {
      assert a < low || high <= a;
    }
    UnpatchedOutside(plan, m, m', placed, low, high);
  }

  lemma UnpatchedOutside(plan: Plan, m: Mem, m': Mem, placed: set<Place>, low: int, high: int)
    requires SameOutside(m, m', low, high)
    ensures SameOutside(Unpatched(plan, m, placed), Unpatched(plan, m', placed), low, high)
  {
    hide PatchedAt, OpAt, Plan.OutsideRegions;
  }

  /** To the original program a fault is standing still, and the process stays sound. */
  lemma FaultIsInvisible<D>(native: Cpu<D> -> Native<D>, plan: Plan, selfStart: Word, selfEnd: Word,
                            k: Clobber, s: Process<D>, s': Process<D>)
    requires Sound(plan, s) && FaultStep(native, plan, selfStart, selfEnd, k, s, s')
    ensures Sound(plan, s') && Stands(Original(plan, s), Original(plan, s'), k.depth)
    ensures PatchedAt(s'.placed, s.cpu.pc) && !PatchedAt(s.placed, s.cpu.pc)
  {
    hide Consistent, PatchStep, RoomClear, Unpatched, Relied;
    var sp := s.cpu.r[SP];
    var m :| PatchStep(native, plan, selfStart, selfEnd, s, WithMem(s', m)) && s'.cpu.mem == Signalled(m, sp, k)
             && RoomClear(plan, s'.placed, sp as int - k.depth, sp);
    var s1 := WithMem(s', m);
    PatchIsInvisible(native, plan, selfStart, selfEnd, s, s1);
    SignalledOutside(m, sp, k);
    RoomIsFree(plan, s1.placed, m, s'.cpu.mem, sp as int - k.depth, sp);
    PatchFacts(native, plan, selfStart, selfEnd, s, s1);
    SoundStays(plan, s1, s');
  }

  lemma SignalledOutside(m: Mem, sp: Word, k: Clobber)
    ensures SameOutside(m, Signalled(m, sp, k), sp as int - k.depth, sp)
  {
  }

  lemma PatchFacts<D>(native: Cpu<D> -> Native<D>, plan: Plan, selfStart: Word, selfEnd: Word,
                      s: Process<D>, s': Process<D>)
    requires PatchStep(native, plan, selfStart, selfEnd, s, s')
    ensures s'.cpu == s.cpu.(mem := s'.cpu.mem) && !PatchedAt(s.placed, s.cpu.pc)
  {
    hide Segv, Plan.Guest, Chosen, NewPlace;
  }

  lemma SameWord<D>(plan: Plan, s: Process<D>, s': Process<D>, i: nat, p: Place, a: int)
    requires Sound(plan, s) && Sound(plan, s') && p !in s.placed && s'.placed == s.placed + {p}
    requires p.op == At(s.cpu.mem, p.site) && plan.Guest(p.site) && Wanted(plan.bases, i) && plan.bases.Base(i) <= p.c
    requires Local(s.cpu.mem, s'.cpu.mem, p.site, p.c, plan.bases.Base(i) + REGION_SIZE)
    ensures Unpatched(plan, s'.cpu.mem, s'.placed)[a] == Unpatched(plan, s.cpu.mem, s.placed)[a]
  {
    hide Standing, At, AllocAfter, StubAt, Headed, Aligned;
    assert p in s'.placed;
    if a == p.site {
      assert PatchedAt(s'.placed, a);
      assert OpAt(s'.placed, a) == p.op by { OpIs(plan, s', p); }
      forall q | q in s.placed ensures q.site != a {
        assert Apart(p, q);
      }
    } else if PatchedAt(s.placed, a) {
      var q :| q in s.placed && q.site == a;
      OpIs(plan, s, q);
      OpIs(plan, s', q);
    }
  }

  /** The trampolines agree on what a site was. */
  lemma OpIs<D>(plan: Plan, s: Process<D>, p: Place)
    requires Sound(plan, s) && p in s.placed
    ensures PatchedAt(s.placed, p.site) && OpAt(s.placed, p.site) == p.op
  {
    hide Standing, AllocAfter, StubAt, Headed, Plan.Valid;
    var q :| q in s.placed && q.site == p.site && OpAt(s.placed, p.site) == q.op;
    assert q != p ==> Apart(p, q);
  }

  lemma ClearIsSafe<D>(plan: Plan, s: Process<D>, p: Place, depth: nat)
    requires Sound(plan, s) && p in s.placed && StackClear(plan, s.placed, s.cpu.r[SP], depth)
    ensures TrampolineAt(s.cpu.mem, plan.host, p) && StubAt(s.cpu.mem, plan.host)
    ensures Safe(s.cpu.r[SP], depth, plan.host, p)
  {
    hide TrampolineAt, StubAt, AllocAfter, Headed, Apart, Aligned;
    assert Standing(plan, Patcher(s.cpu.mem, s.alloc), p);
    var j := if plan.Handed(s.alloc, 0, p) then 0 else 1;
    assert plan.Handed(s.alloc, j, p);
  }

  /** A patched site that runs to its end had its word taken by the interpreter. */
  lemma SiteHandles<D>(bus: Bus<D>, plan: Plan, k: Clobber, s: Process<D>, s': Process<D>) returns (p: Place)
    requires Sound(plan, s) && SiteStep(bus, plan, k, s, s')
    ensures p in s.placed && p.site == s.cpu.pc && Supported(p.op) && At(Original(plan, s).mem, s.cpu.pc) == p.op
    ensures HandleOp(bus, p.op, SavedFrame(s.cpu), s.cpu.dev).Resumed?
  {
    hide Consistent, HandleOp, RunFor, Supported, TrampolineAt, StubAt, Safe, StackClear, Unpatched, At;
    p :| p in s.placed && p.site == s.cpu.pc && Supported(p.op);
    OriginalWord(plan, s, p);
    ClearIsSafe(plan, s, p, k.depth);
    RanMeansHandled(bus, plan.host, k, s.cpu, p);
  }

  /** A site step takes place where a patched instruction no longer addresses the device. */
  ghost predicate Misrouted<D>(native: Cpu<D> -> Native<D>, plan: Plan, s: Process<D>, s': Process<D>) {
    && PatchedAt(s.placed, s.cpu.pc) && !Traps(native, Original(plan, s))
    && native(Original(plan, s)) != Ran(Original(plan, s'))
  }

  /**
   A patched site does to the original program what a trapped device instruction does, and keeps the process sound.
   That is what the original program would have done exactly if it traps there this time too, or if the hardware
   happens to do the same.
   */
  lemma SiteIsDeviceStep<D>(native: Cpu<D> -> Native<D>, bus: Bus<D>, plan: Plan, k: Clobber,
                            s: Process<D>, s': Process<D>)
    requires Sound(plan, s) && SiteStep(bus, plan, k, s, s')
    ensures Sound(plan, s') && DeviceStep(bus, Original(plan, s), Original(plan, s'), k.depth)
    ensures PatchedAt(s.placed, s.cpu.pc)
    ensures GuestStep(native, bus, Original(plan, s), Original(plan, s'), k.depth) <==> !Misrouted(native, plan, s, s')
  {
    hide Consistent, HandleOp, RunFor, Supported, TrampolineAt, StubAt, Safe, RoomClear, Unpatched, At, SameOutside;
    hide Relied;
    var p := SiteHandles(bus, plan, k, s, s');
    ClearIsSafe(plan, s, p, k.depth);
    TrapIsHandled(bus, plan.host, k, s.cpu, p);
    var base := s.cpu.r[SP] as int - FRAME_GAP;
    RoomIsFree(plan, s.placed, s.cpu.mem, s'.cpu.mem, base - k.depth, base + 64);
    SoundStays(plan, s, s');
  }

  /** Where the hardware, were it not for the patch, would run the instruction and do just what the handler does. */
  ghost predicate Coincides<D>(native: Cpu<D> -> Native<D>, bus: Bus<D>, g: Cpu<D>, depth: nat) {
    native(g).Ran? && DeviceStep(bus, g, native(g).next, depth)
  }

  /** Anywhere else, as where a word is stored to, a site step is one of the original program exactly if that traps. */
  lemma TrapsExactly<D>(native: Cpu<D> -> Native<D>, bus: Bus<D>, plan: Plan, k: Clobber,
                        s: Process<D>, s': Process<D>)
    requires Sound(plan, s) && SiteStep(bus, plan, k, s, s') && !Coincides(native, bus, Original(plan, s), k.depth)
    ensures GuestStep(native, bus, Original(plan, s), Original(plan, s'), k.depth)
       <==> Traps(native, Original(plan, s))
  {
    hide Consistent, SiteStep, DeviceStep, Original, Traps, PatchedAt, HandleOp;
    SiteIsDeviceStep(native, bus, plan, k, s, s');
  }

  lemma OriginalWord<D>(plan: Plan, s: Process<D>, p: Place)
    requires Sound(plan, s) && p in s.placed
    ensures At(Original(plan, s).mem, p.site) == p.op
  {
    hide Consistent;
    OpIs(plan, s, p);
  }

  /** A patched site can always be run: its trampoline does not get stuck. */
  lemma SiteRuns<D>(bus: Bus<D>, plan: Plan, k: Clobber, s: Process<D>, p: Place)
    requires Sound(plan, s) && p in s.placed && p.site == s.cpu.pc && Supported(p.op)
    requires StackClear(plan, s.placed, s.cpu.r[SP], k.depth)
    requires HandleOp(bus, p.op, SavedFrame(s.cpu), s.cpu.dev).Resumed?
    ensures RunFor(bus, plan.host, k, s.cpu, 24).Some?
  {
    hide Consistent, HandleOp, RunFor, Supported, TrampolineAt, StubAt, Safe, StackClear;
    ClearIsSafe(plan, s, p, k.depth);
    TrapIsHandled(bus, plan.host, k, s.cpu, p);
  }

  // ----- native steps

  /** The patched process and the original program agree wherever the patcher has no hand in it. */
  lemma OriginalAgrees<D>(plan: Plan, s: Process<D>, foot: iset<int>)
    requires NoneRelied(plan, s.placed, foot)
    ensures SameOn(s.cpu, Original(plan, s), foot) && SameOn(Original(plan, s), s.cpu, foot)
  {
    hide PatchedAt, OpAt, Plan.OutsideRegions;
    forall a | a in foot ensures At(Original(plan, s).mem, a) == At(s.cpu.mem, a) {
      assert !Relied(plan, s.placed, a);
    }
  }

  /** An instruction clear of what the patcher relies on runs the same in the original program. */
  lemma NativeIsNative<D(!new)>(native: Cpu<D> -> Native<D>, plan: Plan, s: Process<D>, s': Process<D>)
    requires NativeStep(native, plan, s, s')
    ensures native(Original(plan, s)) == Ran(Original(plan, s'))
    ensures ReliedKept(plan, s.placed, s.cpu.mem, s'.cpu.mem)
  {
    hide Relied;
    var foot :| Footprint(native, s.cpu, foot) && NoneRelied(plan, s.placed, foot);
    var g := Original(plan, s);
    OriginalAgrees(plan, s, foot);
    assert SameOn(s.cpu, s.cpu, foot);
    assert SameOutcome(native, s.cpu, s.cpu, foot) && SameOutcome(native, s.cpu, g, foot);
    var h := native(g).next;
    SameOriginal(plan, s, s', foot, g.mem, h.mem);
    assert h == Original(plan, s');
    assert forall a | Relied(plan, s.placed, a) :: a !in foot;
  }

  lemma SameOriginal<D>(plan: Plan, s: Process<D>, s': Process<D>, foot: iset<int>, m: Mem, h: Mem)
    requires NoneRelied(plan, s.placed, foot) && s'.placed == s.placed
    requires m == Unpatched(plan, s.cpu.mem, s.placed) && KeepsOutside(m, h, foot)
    requires KeepsOutside(s.cpu.mem, s'.cpu.mem, foot)
    requires forall a | a in foot :: At(h, a) == At(s'.cpu.mem, a)
    ensures h == Unpatched(plan, s'.cpu.mem, s'.placed)
  {
    hide PatchedAt, OpAt, Plan.OutsideRegions;
    var u := Unpatched(plan, s'.cpu.mem, s'.placed);
    forall a: int ensures a in h && a in u && h[a] == u[a] {
      assert a in m && a in m.Keys;
      assert h[a] == At(h, a);
      if a in foot {
        assert !Relied(plan, s.placed, a);
      } else {
        assert At(h, a) == At(m, a) && At(s'.cpu.mem, a) == At(s.cpu.mem, a);
      }
    }
  }

  /** A footprint serves for every state that agrees on it. */
  lemma FootprintMoves<D(!new)>(native: Cpu<D> -> Native<D>, g: Cpu<D>, h: Cpu<D>, foot: iset<int>)
    requires Footprint(native, g, foot) && SameOn(g, h, foot)
    ensures Footprint(native, h, foot)
  {
    hide At;
    assert SameOutcome(native, g, h, foot);
    forall j | SameOn(h, j, foot) ensures SameOutcome(native, h, j, foot) {
      assert SameOn(g, j, foot);
      assert SameOutcome(native, g, j, foot);
    }
  }

  // ----- from the patched process to the original program

  /**
   Every step of the patched process keeps it sound. Seen as the original program it stands still or makes a guest
   step, exactly unless it is the run of a patched site whose instruction no longer addresses the device.
   */
  lemma StepRefines<D(!new)>(native: Cpu<D> -> Native<D>, bus: Bus<D>, plan: Plan, selfStart: Word, selfEnd: Word,
                             k: Clobber, s: Process<D>, s': Process<D>)
    requires Sound(plan, s) && ProcessStep(native, bus, plan, selfStart, selfEnd, k, s, s')
    ensures Sound(plan, s')
    ensures GuestStep(native, bus, Original(plan, s), Original(plan, s'), k.depth)
            || Stands(Original(plan, s), Original(plan, s'), k.depth)
            <==> !Misrouted(native, plan, s, s')
  {
    hide Consistent, SiteStep, FaultStep, GuestStep, HandleOp, Unpatched, PatchedAt, Footprint, NoneRelied, SameOutside;
    if NativeStep(native, plan, s, s') {
      NativeIsNative(native, plan, s, s');
      SoundStays(plan, s, s');
      NativeIsGuest(native, bus, plan, s, s', k.depth);
    } else if SiteStep(bus, plan, k, s, s') {
      SiteIsDeviceStep(native, bus, plan, k, s, s');
      assert s'.cpu.pc != s.cpu.pc by { PcMoves(s.cpu.pc); }
    } else {
      FaultIsInvisible(native, plan, selfStart, selfEnd, k, s, s');
    }
  }

  lemma PcMoves(pc: Word)
    ensures Plus(pc, 4) != pc
  {
  }

  lemma NativeIsGuest<D>(native: Cpu<D> -> Native<D>, bus: Bus<D>, plan: Plan, s: Process<D>, s': Process<D>,
                         depth: nat)
    requires native(Original(plan, s)) == Ran(Original(plan, s')) && !PatchedAt(s.placed, s.cpu.pc)
    ensures GuestStep(native, bus, Original(plan, s), Original(plan, s'), depth) && !Misrouted(native, plan, s, s')
  {
    hide Original, PatchedAt, Traps, DeviceStep;
  }

  /** A run of the patched process, with what the C code clobbers at every step. */
  ghost predicate IsRun<D(!new)>(native: Cpu<D> -> Native<D>, bus: Bus<D>, plan: Plan, selfStart: Word, selfEnd: Word,
                                 run: seq<Process<D>>, junk: seq<Clobber>) {
    && |run| == |junk| + 1
    && forall i | 0 <= i < |junk| :: ProcessStep(native, bus, plan, selfStart, selfEnd, junk[i], run[i], run[i + 1])
  }

  /** In every run every state is sound, and exactly the misrouted steps are none of the original program. */
  lemma {:induction false} RunRefines<D(!new)>(native: Cpu<D> -> Native<D>, bus: Bus<D>, plan: Plan, selfStart: Word,
                                               selfEnd: Word, run: seq<Process<D>>, junk: seq<Clobber>, n: nat)
    requires IsRun(native, bus, plan, selfStart, selfEnd, run, junk) && Sound(plan, run[0]) && n <= |junk|
    ensures Sound(plan, run[n])
    ensures forall i | 0 <= i < n ::
              (|| GuestStep(native, bus, Original(plan, run[i]), Original(plan, run[i + 1]), junk[i].depth)
               || Stands(Original(plan, run[i]), Original(plan, run[i + 1]), junk[i].depth))
              <==> !Misrouted(native, plan, run[i], run[i + 1])
  {
    hide Sound, GuestStep, Original, ProcessStep, SiteStep, Stands, Misrouted;
    if n > 0 {
      RunRefines(native, bus, plan, selfStart, selfEnd, run, junk, n - 1);
      StepRefines(native, bus, plan, selfStart, selfEnd, junk[n - 1], run[n - 1], run[n]);
    }
  }

  /** No address of a register is taken for a real crash. */
  lemma RegistersAreReached(host: Host, selfStart: Word, selfEnd: Word, s: Patcher, pc: Word, addr: Word)
    requires |s.alloc.regions| == 2 && (pc < selfStart || selfEnd < pc) && !InFirstBlock(s.alloc, pc)
    requires Device.VideoWindow(addr) || Device.BlitterWindow(addr)
    ensures Segv(host, selfStart, selfEnd, s, pc, addr) != Died(RealCrash)
  {
    hide Segv, InFirstBlock;
    RealCrashExactly(host, selfStart, selfEnd, s, pc, addr);
  }

  const STRH_R1_AT_R0: Word := 0xe1c0_10b0

  /**
   Such steps lose stores: where an instruction patched earlier now stores a half-word to ordinary memory, the store
   goes to the device, which has no register there.
   */
  lemma StoreIsLost(native: Cpu<Device.Live> -> Native<Device.Live>, plan: Plan, k: Clobber,
                    s: Process<Device.Live>, s': Process<Device.Live>, now: Clock.Time, other: Word -> Word)
    requires now.Valid() && Sound(plan, s) && SiteStep(Device.RegisterBus(now, other), plan, k, s, s')
    requires At(Original(plan, s).mem, s.cpu.pc) == STRH_R1_AT_R0 && s.cpu.r[0] == 0x3000_0000
    requires s.cpu.r[SP] <= 0x3000_0000 && native(Original(plan, s)).Ran?
    requires At(native(Original(plan, s)).next.mem, 0x3000_0000) != At(Original(plan, s).mem, 0x3000_0000)
    ensures Misrouted(native, plan, s, s') && s'.cpu.dev == s.cpu.dev
    ensures At(Original(plan, s').mem, 0x3000_0000) == At(Original(plan, s).mem, 0x3000_0000)
  {
    hide Consistent, SiteStep, HandleOp, Unpatched, Device.RegisterBus, At, PatchedAt, StackClear;
    SiteIsDeviceStep(native, Device.RegisterBus(now, other), plan, k, s, s');
    IgnoredStore(now, other, SavedFrame(s.cpu), s.cpu.dev);
    AlwaysRuns(s.cpu.cpsr);
  }

  lemma AlwaysRuns(cpsr: Word)
    ensures HandlerGuard(STRH_R1_AT_R0, cpsr) == Run
  {
  }

  lemma IgnoredStore(now: Clock.Time, other: Word -> Word, frame: Frame, dev: Device.Live)
    requires now.Valid() && frame[0] == 0x3000_0000
    ensures HandleOp(Device.RegisterBus(now, other), STRH_R1_AT_R0, frame, dev) == Resumed(frame, dev)
  {
    HalfStored(now, other, frame, dev);
    assert Device.After16(dev, 0x3000_0000, frame[1]) == dev;
    hide Device.After16, HandleOp, Device.RegisterBus;
  }

  /** What the interpreter makes of this store, wherever r0 points. */
  lemma HalfStored(now: Clock.Time, other: Word -> Word, frame: Frame, dev: Device.Live)
    requires now.Valid()
    ensures HandleOp(Device.RegisterBus(now, other), STRH_R1_AT_R0, frame, dev)
         == Resumed(frame, Device.After16(dev, frame[0], frame[1]))
  {
    AlwaysRuns(frame[FLAGS]);
    assert IsHalfForm(STRH_R1_AT_R0) && Rn(STRH_R1_AT_R0) == 0 && Rd(STRH_R1_AT_R0) == 1;
    assert Bit(STRH_R1_AT_R0, H_BIT) && !Bit(STRH_R1_AT_R0, S_BIT) && !Bit(STRH_R1_AT_R0, L_BIT);
    assert Bit(STRH_R1_AT_R0, B_BIT) && Bit(STRH_R1_AT_R0, U_BIT) && Imm8(STRH_R1_AT_R0) == 0;
    assert Plus(frame[0], 0) == frame[0];
    hide Bit, Field, Device.After16, HandlerGuard;
  }

  // ----- from the original program to the patched process

  /** A step the original program takes natively, clear of what the patcher relies on, the patched process takes too. */
  lemma NativeIsMatched<D(!new)>(native: Cpu<D> -> Native<D>, plan: Plan, s: Process<D>, g': Cpu<D>, foot: iset<int>)
    returns (s': Process<D>)
    requires native(Original(plan, s)) == Ran(g') && !PatchedAt(s.placed, s.cpu.pc)
    requires Footprint(native, Original(plan, s), foot) && NoneRelied(plan, s.placed, foot)
    ensures NativeStep(native, plan, s, s') && Original(plan, s') == g'
  {
    var g := Original(plan, s);
    OriginalAgrees(plan, s, foot);
    FootprintMoves(native, g, s.cpu, foot);
    assert SameOutcome(native, g, s.cpu, foot);
    s' := s.(cpu := native(s.cpu).next);
    NativeIsNative(native, plan, s, s');
  }

  /** What patching the instruction at pc takes, besides its faulting: reach, pages left, and room on the stack. */
  ghost predicate Patchable<D>(plan: Plan, selfStart: Word, selfEnd: Word, k: Clobber, s: Process<D>, addr: Word) {
    var pc, sp := s.cpu.pc, s.cpu.r[SP];
    |s.alloc.regions| == 2 && var i := Chosen(s.alloc, pc);
    && plan.Guest(pc) && !Foreign(selfStart, selfEnd, s.alloc, pc, addr) && Available(s.alloc, i)
    && Tested(s.alloc.regions[i].value.next, pc) <= 0x7f_fff7
    && Fits(if i == 0 then s.n0 + 1 else s.n0, if i == 1 then s.n1 + 1 else s.n1)
    && RoomClear(plan, s.placed, sp as int - k.depth, sp)
    && Clear(sp as int - FRAME_GAP - k.depth, sp, pc, 4)
  }

  /** An instruction the original program faults on is patched, and the original program stands still meanwhile. */
  lemma FaultIsMatched<D(!new)>(native: Cpu<D> -> Native<D>, plan: Plan, selfStart: Word, selfEnd: Word, k: Clobber,
                                s: Process<D>, foot: iset<int>) returns (s': Process<D>)
    requires Sound(plan, s) && !PatchedAt(s.placed, s.cpu.pc) && native(Original(plan, s)).DeviceFault?
    requires Footprint(native, Original(plan, s), foot) && NoneRelied(plan, s.placed, foot)
    requires Patchable(plan, selfStart, selfEnd, k, s, native(Original(plan, s)).addr)
    ensures FaultStep(native, plan, selfStart, selfEnd, k, s, s')
    ensures s'.cpu == s.cpu.(mem := s'.cpu.mem)
    ensures forall p | p in s'.placed && p !in s.placed :: p.site == s.cpu.pc
  {
    hide Consistent, Segv, Foreign, InFirstBlock, Tested, Fits, RoomClear, Plan.Guest, Unpatched, PatchStep, Chosen;
    hide NewPlace, Relied;
    var g, pc, sp, i := Original(plan, s), s.cpu.pc, s.cpu.r[SP], Chosen(s.alloc, s.cpu.pc);
    OriginalAgrees(plan, s, foot);
    assert SameOutcome(native, g, s.cpu, foot);
    var addr := native(s.cpu).addr;
    var before := Patcher(s.cpu.mem, s.alloc);
    assert Fresh(plan, s.placed, pc);
    ForeignExactly(selfStart, selfEnd, s.alloc, pc, addr);
    SurvivedExactly(plan, selfStart, selfEnd, before, s.placed, s.n0, s.n1, pc, addr);
    var out := Segv(plan.host, selfStart, selfEnd, before, pc, addr);
    var p := NewPlace(before, i, pc);
    var s1 := Process(s.cpu.(mem := out.state.mem), out.state.alloc, s.placed + {p},
                      if i == 0 then s.n0 + 1 else s.n0, if i == 1 then s.n1 + 1 else s.n1);
    assert PatchStep(native, plan, selfStart, selfEnd, s, s1) by { Patches(native, plan, selfStart, selfEnd, s, s1); }
    s' := WithMem(s1, Signalled(out.state.mem, sp, k));
    assert WithMem(s', out.state.mem) == s1;
    NewSiteClear(plan, before, s.placed, i, pc, sp as int - k.depth, sp);
  }

  lemma Patches<D>(native: Cpu<D> -> Native<D>, plan: Plan, selfStart: Word, selfEnd: Word,
                   s: Process<D>, s': Process<D>)
    requires |s.alloc.regions| == 2 && Fresh(plan, s.placed, s.cpu.pc) && native(s.cpu).DeviceFault?
    requires Available(s.alloc, Chosen(s.alloc, s.cpu.pc)) && Chosen(s.alloc, s.cpu.pc) < 2
    requires Segv(plan.host, selfStart, selfEnd, Patcher(s.cpu.mem, s.alloc), s.cpu.pc, native(s.cpu).addr)
          == Patched(Patcher(s'.cpu.mem, s'.alloc))
    requires var i := Chosen(s.alloc, s.cpu.pc);
      && s'.placed == s.placed + {NewPlace(Patcher(s.cpu.mem, s.alloc), i, s.cpu.pc)}
      && s'.n0 == (if i == 0 then s.n0 + 1 else s.n0) && s'.n1 == (if i == 1 then s.n1 + 1 else s.n1)
    requires s'.cpu == s.cpu.(mem := s'.cpu.mem)
    ensures PatchStep(native, plan, selfStart, selfEnd, s, s')
  {
    hide Segv, Fresh, Chosen, NewPlace;
  }

  lemma NewSiteClear(plan: Plan, before: Patcher, placed: set<Place>, i: nat, pc: Word, low: int, high: int)
    requires |before.alloc.regions| == 2 && Available(before.alloc, i)
    requires RoomClear(plan, placed, low, high) && Clear(low, high, pc, 4)
    ensures RoomClear(plan, placed + {NewPlace(before, i, pc)}, low, high) && NewPlace(before, i, pc).site == pc
  {
  }

  /**
   A supported instruction on which the original program traps takes the patched process at most one fault, and then
   one run of its trampoline, to the interpreter's effect; memory differs only in the dead room below the stack.
   */
  lemma TrapIsMatched<D(!new)>(native: Cpu<D> -> Native<D>, bus: Bus<D>, plan: Plan, selfStart: Word, selfEnd: Word,
                               k: Clobber, s: Process<D>, foot: iset<int>) returns (s1: Process<D>, s2: Process<D>)
    requires Sound(plan, s) && StackClear(plan, s.placed, s.cpu.r[SP], k.depth)
    requires var g := Original(plan, s); var op := At(g.mem, g.pc);
      && Supported(op) && HandleOp(bus, op, SavedFrame(g), g.dev).Resumed?
      && (!PatchedAt(s.placed, g.pc) ==>
            && native(g).DeviceFault? && Footprint(native, g, foot) && NoneRelied(plan, s.placed, foot)
            && Patchable(plan, selfStart, selfEnd, k, s, native(g).addr))
    ensures if PatchedAt(s.placed, s.cpu.pc) then s1 == s else FaultStep(native, plan, selfStart, selfEnd, k, s, s1)
    ensures SiteStep(bus, plan, k, s1, s2) && Sound(plan, s2)
    ensures forall p | p in s2.placed && p !in s.placed :: p.site == s.cpu.pc
    ensures var g, g' := Original(plan, s), Original(plan, s2); var sp := g.r[SP] as int;
      Effect(bus, g, g') && SameOutside(g.mem, g'.mem, sp - FRAME_GAP - k.depth, sp)
  {
    hide Consistent, HandleOp, RunFor, Supported, RoomClear, Unpatched, PatchedAt, Footprint, NoneRelied, FaultStep;
    hide At, Clear;
    var g, sp := Original(plan, s), s.cpu.r[SP] as int;
    s1 := s;
    if !PatchedAt(s.placed, s.cpu.pc) {
      s1 := FaultIsMatched(native, plan, selfStart, selfEnd, k, s, foot);
      FaultIsInvisible(native, plan, selfStart, selfEnd, k, s, s1);
      SitesClear(plan, s.placed, s1.placed, s.cpu.pc, sp - FRAME_GAP - k.depth, sp - FRAME_GAP + 64, sp);
      SameWordLeft(plan, s, s1, k.depth);
    }
    var p := SiteAt(plan, s1);
    SiteRuns(bus, plan, k, s1, p);
    s2 := s1.(cpu := RunFor(bus, plan.host, k, s1.cpu, 24).value);
    assert SiteStep(bus, plan, k, s1, s2);
    SiteIsDeviceStep(native, bus, plan, k, s1, s2);
    TwoRooms(g.mem, Original(plan, s1).mem, Original(plan, s2).mem, sp, k.depth);
  }

  /** The trapped word is still the same once its place has been patched. */
  lemma SameWordLeft<D>(plan: Plan, s: Process<D>, s1: Process<D>, depth: nat)
    requires Stands(Original(plan, s), Original(plan, s1), depth)
    requires Clear(s.cpu.r[SP] as int - FRAME_GAP - depth, s.cpu.r[SP], s.cpu.pc, 4)
    ensures At(Original(plan, s1).mem, s.cpu.pc) == At(Original(plan, s).mem, s.cpu.pc)
    ensures SavedFrame(s1.cpu) == SavedFrame(s.cpu) && s1.cpu.pc == s.cpu.pc && s1.cpu.dev == s.cpu.dev
  {
    hide At, Unpatched;
  }

  lemma SitesClear(plan: Plan, placed: set<Place>, placed': set<Place>, pc: Word, low: int, high: int, top: int)
    requires RoomClear(plan, placed, low, high) && Clear(low, top, pc, 4) && high <= top
    requires forall p | p in placed' && p !in placed :: p.site == pc
    ensures RoomClear(plan, placed', low, high)
  {
  }

  lemma SiteAt<D>(plan: Plan, s: Process<D>) returns (p: Place)
    requires Sound(plan, s) && PatchedAt(s.placed, s.cpu.pc)
    ensures p in s.placed && p.site == s.cpu.pc && p.op == At(Original(plan, s).mem, s.cpu.pc)
  {
    p :| p in s.placed && p.site == s.cpu.pc;
    hide Consistent;
    OriginalWord(plan, s, p);
  }

  lemma TwoRooms(m: Mem, m1: Mem, m2: Mem, sp: int, depth: nat)
    requires SameOutside(m, m1, sp - depth, sp) || m1 == m
    requires SameOutside(m1, m2, sp - FRAME_GAP - depth, sp - FRAME_GAP + 64)
    ensures SameOutside(m, m2, sp - FRAME_GAP - depth, sp)
  {
    hide At;
  }

  /** One step of the original program, with what a signal and the C code leave below the stack pointer. */
  ghost predicate OriginalStep<D>(native: Cpu<D> -> Native<D>, bus: Bus<D>, g: Cpu<D>, g': Cpu<D>, depth: nat) {
    || native(g) == Ran(g')
    || (Traps(native, g) && Effect(bus, g, g')
        && SameOutside(g.mem, g'.mem, g.r[SP] as int - FRAME_GAP - depth, g.r[SP]))
  }

  ghost predicate Unrelated<D(!new)>(native: Cpu<D> -> Native<D>, plan: Plan, s: Process<D>) {
    exists foot :: Footprint(native, Original(plan, s), foot) && NoneRelied(plan, s.placed, foot)
  }

  /** The instruction at pc runs in the original program, and has nothing to do with the patcher. */
  ghost predicate RunsAlone<D(!new)>(native: Cpu<D> -> Native<D>, plan: Plan, s: Process<D>) {
    native(Original(plan, s)).Ran? && !PatchedAt(s.placed, s.cpu.pc) && Unrelated(native, plan, s)
  }

  /** It traps there, the interpreter takes it, and it is patched or can be. */
  ghost predicate CanTrap<D(!new)>(native: Cpu<D> -> Native<D>, bus: Bus<D>, plan: Plan, selfStart: Word,
                                   selfEnd: Word, k: Clobber, s: Process<D>) {
    var g := Original(plan, s);
    var op := At(g.mem, g.pc);
    && Traps(native, g) && Supported(op) && HandleOp(bus, op, SavedFrame(g), g.dev).Resumed?
    && StackClear(plan, s.placed, s.cpu.r[SP], k.depth)
    && (!PatchedAt(s.placed, g.pc) ==>
          && native(g).DeviceFault? && Unrelated(native, plan, s)
          && Patchable(plan, selfStart, selfEnd, k, s, native(g).addr))
  }

  ghost predicate CanFollow<D(!new)>(native: Cpu<D> -> Native<D>, bus: Bus<D>, plan: Plan, selfStart: Word,
                                     selfEnd: Word, k: Clobber, s: Process<D>) {
    RunsAlone(native, plan, s) || CanTrap(native, bus, plan, selfStart, selfEnd, k, s)
  }

  /** One step of the patched process or two of them, seen as one step of the original program. */
  ghost predicate Follows<D(!new)>(native: Cpu<D> -> Native<D>, bus: Bus<D>, plan: Plan, selfStart: Word,
                                   selfEnd: Word, k: Clobber, s: Process<D>, s': Process<D>) {
    && (|| ProcessStep(native, bus, plan, selfStart, selfEnd, k, s, s')
        || exists s1 :: ProcessStep(native, bus, plan, selfStart, selfEnd, k, s, s1)
                        && ProcessStep(native, bus, plan, selfStart, selfEnd, k, s1, s'))
    && OriginalStep(native, bus, Original(plan, s), Original(plan, s'), k.depth)
  }

  lemma StepIsFollowed<D(!new)>(native: Cpu<D> -> Native<D>, bus: Bus<D>, plan: Plan, selfStart: Word, selfEnd: Word,
                                k: Clobber, s: Process<D>) returns (s': Process<D>)
    requires Sound(plan, s) && CanFollow(native, bus, plan, selfStart, selfEnd, k, s)
    ensures Follows(native, bus, plan, selfStart, selfEnd, k, s, s') && Sound(plan, s')
  {
    hide Consistent, HandleOp, Supported, StackClear, Unpatched, PatchedAt, Footprint, NoneRelied, At, Patchable;
    hide SiteStep, FaultStep, NativeStep, Effect, SameOutside;
    var g := Original(plan, s);
    if RunsAlone(native, plan, s) {
      var foot :| Footprint(native, g, foot) && NoneRelied(plan, s.placed, foot);
      s' := NativeIsMatched(native, plan, s, native(g).next, foot);
      NativeStays(native, plan, s, s');
    } else {
      var foot: iset<int> := iset{};
      if Unrelated(native, plan, s) { foot :| Footprint(native, g, foot) && NoneRelied(plan, s.placed, foot); }
      var s1;
      s1, s' := TrapIsMatched(native, bus, plan, selfStart, selfEnd, k, s, foot);
      assert ProcessStep(native, bus, plan, selfStart, selfEnd, k, s1, s');
      assert PatchedAt(s.placed, s.cpu.pc) || ProcessStep(native, bus, plan, selfStart, selfEnd, k, s, s1);
    }
  }

  lemma NativeStays<D(!new)>(native: Cpu<D> -> Native<D>, plan: Plan, s: Process<D>, s': Process<D>)
    requires Sound(plan, s) && NativeStep(native, plan, s, s')
    ensures Sound(plan, s')
  {
    hide Consistent, Footprint, NoneRelied, Relied;
    NativeIsNative(native, plan, s, s');
    SoundStays(plan, s, s');
  }

  /**
   From every sound state the patched process follows the original program, step by step, for as long as the code it
   comes to runs alone or can trap: the run below ends early only in a state where neither is so.
   */
  lemma {:induction false} RunIsFollowed<D(!new)>(native: Cpu<D> -> Native<D>, bus: Bus<D>, plan: Plan,
                                                  selfStart: Word, selfEnd: Word, s: Process<D>, junk: seq<Clobber>)
    returns (run: seq<Process<D>>)
    requires Sound(plan, s)
    ensures 1 <= |run| <= |junk| + 1 && run[0] == s && forall i | 0 <= i < |run| :: Sound(plan, run[i])
    ensures forall i | 0 <= i < |run| - 1 ::
              Follows(native, bus, plan, selfStart, selfEnd, junk[i], run[i], run[i + 1])
    ensures
      |run| <= |junk| ==>
        !CanFollow(native, bus, plan, selfStart, selfEnd, junk[|run| - 1], run[|run| - 1])
    decreases |junk|
  {
    hide Sound, Follows, CanFollow;
    run := [s];
    if junk != [] && CanFollow(native, bus, plan, selfStart, selfEnd, junk[0], s) {
      var s' := StepIsFollowed(native, bus, plan, selfStart, selfEnd, junk[0], s);
      var rest := RunIsFollowed(native, bus, plan, selfStart, selfEnd, s', junk[1..]);
      run := [s] + rest;
    }
  }

  // ----- and to the manual

  /**
   One theorem from the patched code to the architecture manual: running a patched site does to r0-r14 and the device
   what the manual says of the word that was there, r15 reading as its address plus 8; or nothing, if the word's
   condition fails.
   */
  lemma SiteMeetsManual<D>(native: Cpu<D> -> Native<D>, bus: Bus<D>, plan: Plan, k: Clobber,
                           s: Process<D>, s': Process<D>)
    requires Sound(plan, s) && SiteStep(bus, plan, k, s, s')
    requires var op := At(Original(plan, s).mem, s.cpu.pc);
      DecodeTransfer(op).Some? ==>
        var x := DecodeTransfer(op).value;
        !Clash(x) && !RightShifted(x) && !UsesPc(x) && NarrowAt(bus, x, SavedFrame(s.cpu), s.cpu.dev)
    ensures var g, g' := Original(plan, s), Original(plan, s'); var op := At(g.mem, g.pc);
      && g'.pc == Plus(g.pc, 4) && g'.cpsr == g.cpsr && DeadRoom(g.mem, g'.mem, g.r[SP], k.depth)
      && (!ConditionPassed(Field(op, 0x1000_0000, 16), g.cpsr) ==> g'.r == g.r && g'.dev == g.dev)
      && (ConditionPassed(Field(op, 0x1000_0000, 16), g.cpsr) ==>
            && DecodeTransfer(op).Some?
            && var manual := Perform(bus, DecodeTransfer(op).value, WithPc(SavedFrame(g), g.pc), g.dev);
               manual.Resumed? && g'.r == manual.frame[..15] && g'.dev == manual.dev)
  {
    hide Consistent, SiteStep, HandleOp, Unpatched, At, DeadRoom, PatchedAt, ConditionPassed, DecodeTransfer, Perform;
    hide Clash, RightShifted, UsesPc, NarrowAt, Field, WithPc, Misrouted, GuestStep;
    SiteIsDeviceStep(native, bus, plan, k, s, s');
    var op := At(Original(plan, s).mem, s.cpu.pc);
    assert SavedFrame(s.cpu)[FLAGS] == s.cpu.cpsr && SavedFrame(s.cpu)[..15] == s.cpu.r;
    if ConditionPassed(Field(op, 0x1000_0000, 16), s.cpu.cpsr) {
      HandlerMeetsManualAt(bus, op, SavedFrame(s.cpu), s.cpu.dev, s.cpu.pc);
    } else {
      HandlerMeetsManual(bus, op, SavedFrame(s.cpu), s.cpu.dev);
    }
  }
}
