/**
 A run of the patched process, from its start, in which a store is lost: a half-word store faults on a device address,
 is patched and emulated; then the program comes back to it with an address in ordinary memory.
 */
module LostStore {
  import opened Words
  import opened IoOps
  import opened Arm
  import opened Trampoline
  import opened Linkpages
  import opened Layout
  import opened Simulation
  import Clock
  import Device

  type Machine = Cpu<Device.Live>

  const SITE := 0x3_0000
  const REGISTER: Word := 0x7f00_2958
  const CELL := 0x3000_0000
  const STACK := 0x2000_0000

  /** Memory with the low half of the word at address a replaced. */
  ghost function HalfStore(m: Mem, a: int, h: Word): Mem {
    m[a := At(m, a) / 0x1_0000 * 0x1_0000 + h % 0x1_0000]
  }

  /** Two instructions: the store of r1 at r0, and one behind it that puts another address into r0 and goes back. */
  ghost function Program(g: Machine): Native<Device.Live> {
    if g.pc == SITE && g.r[0] == CELL then Ran(g.(mem := HalfStore(g.mem, CELL, g.r[1]), pc := SITE + 4))
    else if g.pc == SITE then DeviceFault(g.r[0])
    else if g.pc == SITE + 4 then Ran(g.(r := g.r[0 := CELL], pc := SITE))
    else Other
  }

  /** The start: nothing patched, r0 on a display register, and in r1 what is not in the memory cell. */
  lemma Start(image: Mem, dev: Device.Live) returns (s: Process<Device.Live>)
    requires At(image, SITE) == STRH_R1_AT_R0
    ensures Sound(SmallPlan(), s) && s.placed == {} && s.n0 == s.n1 == 0
    ensures s.alloc == Alloc([Some(Region(0x2_c000, 0x2_c008)), None], 0)
    ensures s.cpu.pc == SITE && s.cpu.dev == dev && s.cpu.r[0] == REGISTER && s.cpu.r[SP] == STACK
    ensures At(Original(SmallPlan(), s).mem, SITE) == STRH_R1_AT_R0
    ensures s.cpu.r[1] as int % 0x1_0000 != At(Original(SmallPlan(), s).mem, CELL) as int % 0x1_0000
  {
    hide StubAt, WithWords, Consistent, WithFirstHeaders, MakeJmp, Original, At;
    var plan, host := SmallPlan(), Host(0x1_0000, 0x1_0100);
    SmallPlanIsValid();
    StubWritten(image, host);
    var words := StubWords(MakeJmp(Plus(host.stub, 36), host.entry, true).value);
    var stubbed := WithWords(image, host.stub, words);
    InitialConsistent(plan, stubbed);
    var start := Initial(plan, stubbed);
    var r: Regs := seq(15, i requires 0 <= i < 15 => if i == 0 then REGISTER else if i == SP then STACK else 0);
    s := Process(Cpu(r, SITE, 0, start.mem, dev), start.alloc, {}, 0, 0);
    StubElsewhere(image, words);
    HeaderElsewhere(stubbed);
    NothingPatched(s);
    OtherRegisters(plan, s, r[1 := Other16(At(Original(plan, s).mem, CELL))]);
    s := s.(cpu := s.cpu.(r := r[1 := Other16(At(Original(plan, s).mem, CELL))]));
  }

  function Other16(w: Word): Word { (w as int + 1) % 0x1_0000 }

  lemma OtherRegisters(plan: Plan, s: Process<Device.Live>, r: Regs)
    ensures Original(plan, s.(cpu := s.cpu.(r := r))).mem == Original(plan, s).mem
    ensures Sound(plan, s) ==> Sound(plan, s.(cpu := s.cpu.(r := r)))
  {
    hide Consistent, Unpatched;
  }

  /** Neither the stub nor the first page's header is stored over the program. */
  lemma StubElsewhere(image: Mem, words: seq<Word>)
    requires |words| == 15
    ensures At(WithWords(image, 0x1_0000, words), SITE) == At(image, SITE)
  {
    hide WithWords, At;
    WordsWritten(image, 0x1_0000, words);
  }

  lemma HeaderElsewhere(m: Mem)
    ensures At(Initial(SmallPlan(), m).mem, SITE) == At(m, SITE)
  {
    PlusSmall(0x2_c000, 4);
    hide Plus, AllocAfter;
  }

  lemma NothingPatched(s: Process<Device.Live>)
    requires s.placed == {}
    ensures At(Original(SmallPlan(), s).mem, SITE) == At(s.cpu.mem, SITE)
  {
    assert SmallPlan().OutsideRegions(SITE, 1);
    hide OpAt, Plan.OutsideRegions;
  }

  // ----- the four steps

  /** Only the store has been patched. */
  predicate OnlySite(placed: set<Place>) {
    forall p | p in placed :: p.site == SITE
  }

  /** The store, and a memory cell as it was at first. */
  ghost predicate Holds(s: Process<Device.Live>, cell: Word) {
    var m := Original(SmallPlan(), s).mem;
    At(m, SITE) == STRH_R1_AT_R0 && At(m, CELL) == cell
  }

  /** Before the first step: the store is patched. */
  lemma Faults(k: Clobber, s: Process<Device.Live>, cell: Word) returns (s': Process<Device.Live>)
    requires Sound(SmallPlan(), s) && s.placed == {} && s.n0 == s.n1 == 0 && k.depth == 0x100
    requires s.alloc == Alloc([Some(Region(0x2_c000, 0x2_c008)), None], 0)
    requires s.cpu.pc == SITE && s.cpu.r[0] == REGISTER && s.cpu.r[SP] == STACK && Holds(s, cell)
    ensures FaultStep(Program, SmallPlan(), 0x1_0000, 0x1_1000, k, s, s') && Sound(SmallPlan(), s')
    ensures s'.cpu == s.cpu.(mem := s'.cpu.mem) && PatchedAt(s'.placed, SITE) && OnlySite(s'.placed) && Holds(s', cell)
  {
    hide Consistent, FaultStep, Unpatched, At, PatchedAt;
    var plan := SmallPlan();
    assert Footprint(Program, Original(plan, s), iset{});
    FirstIsPatchable(k, s);
    s' := FaultIsMatched(Program, plan, 0x1_0000, 0x1_1000, k, s, iset{});
    FaultIsInvisible(Program, plan, 0x1_0000, 0x1_1000, k, s, s');
  }

  lemma FirstIsPatchable(k: Clobber, s: Process<Device.Live>)
    requires s.placed == {} && s.n0 == s.n1 == 0 && k.depth == 0x100
    requires s.alloc == Alloc([Some(Region(0x2_c000, 0x2_c008)), None], 0)
    requires s.cpu.pc == SITE && s.cpu.r[SP] == STACK
    ensures Patchable(SmallPlan(), 0x1_0000, 0x1_1000, k, s, REGISTER) && !PatchedAt(s.placed, SITE)
  {
    SmallPlanIsValid();
    StackIsClear({});
    assert Signed(Wrap(0x2_c010 - 0x3_0000)) == 0x2_c010 - 0x3_0000;
    assert Tested(0x2_c008, 0x3_0000) == (0x2_c010 - 0x3_0000) / 4 - 2;
    hide Tested, Plan.Guest;
  }

  lemma StackIsClear(placed: set<Place>)
    requires OnlySite(placed)
    ensures StackClear(SmallPlan(), placed, STACK, 0x100)
    ensures RoomClear(SmallPlan(), placed, STACK as int - 0x100, STACK)
  {
  }

  /** The patched store is emulated: registers and memory stay. */
  lemma RunsSite(now: Clock.Time, other: Word -> Word, k: Clobber, s: Process<Device.Live>, cell: Word)
    returns (s': Process<Device.Live>)
    requires now.Valid() && Sound(SmallPlan(), s) && k.depth == 0x100 && PatchedAt(s.placed, SITE) && OnlySite(s.placed)
    requires s.cpu.pc == SITE && s.cpu.r[SP] == STACK && Holds(s, cell)
    ensures SiteStep(Device.RegisterBus(now, other), SmallPlan(), k, s, s') && Sound(SmallPlan(), s')
    ensures s'.cpu.r == s.cpu.r && s'.cpu.pc == SITE + 4 && s'.placed == s.placed && Holds(s', cell)
  {
    hide Consistent, HandleOp, RunFor, Supported, Unpatched, At, PatchedAt, StackClear, Device.RegisterBus;
    var plan, bus := SmallPlan(), Device.RegisterBus(now, other);
    var p := SiteAt(plan, s);
    StackIsClear(s.placed);
    StoreIsSupported();
    HalfStored(now, other, SavedFrame(s.cpu), s.cpu.dev);
    SiteRuns(bus, plan, k, s, p);
    s' := s.(cpu := RunFor(bus, plan.host, k, s.cpu, 24).value);
    SiteIsDeviceStep(Program, bus, plan, k, s, s');
    PlusSmall(SITE, 4);
  }

  lemma StoreIsSupported()
    ensures Supported(STRH_R1_AT_R0)
  {
    assert !Bit(STRH_R1_AT_R0, L_BIT) && !IsWordForm(STRH_R1_AT_R0);
  }

  /** The program goes back, r0 on the memory cell. */
  lemma GoesBack(s: Process<Device.Live>, cell: Word) returns (s': Process<Device.Live>)
    requires Sound(SmallPlan(), s) && OnlySite(s.placed) && s.cpu.pc == SITE + 4 && Holds(s, cell)
    ensures NativeStep(Program, SmallPlan(), s, s') && Sound(SmallPlan(), s') && s'.placed == s.placed
    ensures s'.cpu.r == s.cpu.r[0 := CELL] && s'.cpu.pc == SITE && Holds(s', cell)
  {
    hide Consistent, Unpatched, At;
    var plan := SmallPlan();
    var g := Original(plan, s);
    assert Footprint(Program, g, iset{});
    s' := NativeIsMatched(Program, plan, s, g.(r := g.r[0 := CELL], pc := SITE), iset{});
    NativeStays(Program, plan, s, s');
  }

  /**
   The whole run, for whatever the handler leaves behind and any memory that holds the instruction: the store is
   patched, emulated, and when the program comes back to store to memory, the cell keeps what was in it.
   */
  lemma StoreIsLostInRun(image: Mem, dev: Device.Live, now: Clock.Time, other: Word -> Word, k: Clobber)
    returns (run: seq<Process<Device.Live>>)
    requires At(image, SITE) == STRH_R1_AT_R0 && now.Valid() && k.depth == 0x100
    ensures |run| == 5 && Sound(SmallPlan(), run[0]) && run[0].placed == {}
    ensures IsRun(Program, Device.RegisterBus(now, other), SmallPlan(), 0x1_0000, 0x1_1000, run, [k, k, k, k])
    ensures Misrouted(Program, SmallPlan(), run[3], run[4])
    ensures
      var g, g' := Original(SmallPlan(), run[3]), Original(SmallPlan(), run[4]);
      && Program(g).Ran? && At(Program(g).next.mem, CELL) as int % 0x1_0000 == g.r[1] as int % 0x1_0000
      && At(g'.mem, CELL) == At(g.mem, CELL) && At(g.mem, CELL) as int % 0x1_0000 != g.r[1] as int % 0x1_0000
  {
    hide Consistent, FaultStep, SiteStep, NativeStep, Unpatched, PatchedAt, Device.RegisterBus, At;
    var plan, bus := SmallPlan(), Device.RegisterBus(now, other);
    var s0 := Start(image, dev);
    var cell := At(Original(plan, s0).mem, CELL);
    var s1 := Faults(k, s0, cell);
    var s2 := RunsSite(now, other, k, s1, cell);
    var s3 := GoesBack(s2, cell);
    var s4 := RunsSite(now, other, k, s3, cell);
    StoredHalf(Original(plan, s3));
    StoreIsLost(Program, plan, k, s3, s4, now, other);
    run := [s0, s1, s2, s3, s4];
  }

  lemma StoredHalf(g: Machine)
    requires g.pc == SITE && g.r[0] == CELL
    ensures Program(g).Ran? && At(Program(g).next.mem, CELL) as int % 0x1_0000 == g.r[1] as int % 0x1_0000
  {
  }
}
