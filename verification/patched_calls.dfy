/**
 What the patched words do when they run: the machine executes what `do_patches` leaves at a match, and ends up in the
 wrapper of the entry that matched. A hw_ patch first pushes the pc, from which its wrapper returns behind the match.
 */
module PatchedCalls {
  import opened Words
  import opened IoOps
  import opened Arm
  import opened SigPatches

  /** The patched code lies in memory from base on. */
  ghost predicate Loaded(o: Job, base: Word, m: Mem)
    requires o.Valid()
  {
    && Aligned(base) && base as int + 4 * |o.code| <= 0x1_0000_0000
    && forall j: nat | j < |o.code| :: At(m, base as int + 4 * j) == o.Final(j)
  }

  /**
   One instruction. Storing pc is the machine's own choice of 8 or 12 bytes ahead (section A2.4.3 of ARM DDI 0100);
   everything else is as it is for the trampolines.
   */
  ghost function Step<D>(ahead: nat, s: Cpu<D>): Option<Cpu<D>> {
    var word := At(s.mem, s.pc);
    if word == 0xe92d_8000 then
      var sp := Plus(s.r[SP], -4);
      if !Aligned(sp) then None
      else Some(s.(pc := Plus(s.pc, 4), r := s.r[SP := sp], mem := s.mem[sp as int := Plus(s.pc, ahead)]))
    else Execute(Decode(word), s)
  }

  lemma LoadDecodes()
    ensures Decode(0xe51f_f004) == LoadWord(15, 15, -4)
    ensures Decode(0xe1a0_0000) == Move(0, 0)
  {
  }

  /** Word t behind the start of a site, as it is in memory. */
  lemma SiteWord<D>(o: Job, base: Word, k: nat, t: nat, s: Cpu<D>)
    requires o.Valid() && Loaded(o, base, s.mem) && o.Site(k) && t < WrittenBy(Entry(o.Found(k)).kind)
    ensures Entry(o.Found(k)).kind < 3 && k + t < |o.code|
    ensures At(s.mem, base as int + 4 * (k + t)) == PatchWord(Entry(o.Found(k)).kind, o.func(o.Found(k)), t)
  {
    hide Job.Site, Job.Final, MatchAt, PatchWord, Entry, At;
    SiteWrites(o, k, k + t);
  }

  /** The machine is about to run the first word of a site. */
  ghost predicate AtSite<D>(o: Job, base: Word, k: nat, s: Cpu<D>)
    requires o.Valid()
  {
    Loaded(o, base, s.mem) && o.Site(k) && s.pc as int == base as int + 4 * k
  }

  /** A jump patch leads to the wrapper of the entry that matched, and changes nothing else. */
  lemma JumpPatch<D>(o: Job, base: Word, k: nat, s: Cpu<D>, ahead: nat)
    requires o.Valid() && AtSite(o, base, k, s) && Entry(o.Found(k)).kind == 0
    ensures Step(ahead, s) == Some(s.(pc := o.func(o.Found(k))))
  {
    hide Job.Site, Job.Final, MatchAt, Entry, At, Step, Loaded, Aligned, Plus;
    JumpWords(o, base, k, s);
    Jumps(ahead, s, o.func(o.Found(k)));
  }

  lemma JumpWords<D>(o: Job, base: Word, k: nat, s: Cpu<D>)
    requires o.Valid() && AtSite(o, base, k, s) && Entry(o.Found(k)).kind == 0
    ensures At(s.mem, s.pc) == 0xe51f_f004 && At(s.mem, Plus(s.pc, 4)) == o.func(o.Found(k))
    ensures Aligned(Plus(s.pc, 4)) && Plus(Plus(s.pc, 8), -4) == Plus(s.pc, 4)
  {
    hide Job.Site, Job.Final, MatchAt, Entry, At, Plus;
    SiteWord(o, base, k, 0, s);
    SiteWord(o, base, k, 1, s);
    CodeAddress(o, base, k, 1);
    CodeAddress(o, base, k + 1, 0);
  }

  lemma CodeAddress(o: Job, base: Word, k: nat, t: nat)
    requires Aligned(base) && base as int + 4 * |o.code| <= 0x1_0000_0000 && k + t < |o.code|
    ensures
      var pc: Word := base as int + 4 * k;
      Aligned(pc) && Plus(pc, 4 * t) == base as int + 4 * (k + t) && Plus(Plus(pc, 8), -4) == Plus(pc, 4)
  {
    AlignedStep(base, k);
    PlusSmall(base as int + 4 * k, 4 * t);
    PlusPlus(base as int + 4 * k, 8, -4);
  }

  /**
   A hw_ patch pushes the pc, 8 or 12 bytes ahead of the match's first word, and leads to its wrapper; the second is
   the address behind the match, to which the wrapper returns.
   */
  lemma PushPatch<D>(o: Job, base: Word, k: nat, s: Cpu<D>, ahead: nat)
    requires o.Valid() && AtSite(o, base, k, s) && Entry(o.Found(k)).kind == 1
    requires Aligned(s.r[SP]) && Plus(s.r[SP], -4) as int != base as int + 4 * (k + 1)
    requires Plus(s.r[SP], -4) as int != base as int + 4 * (k + 2)
    ensures
      var sp := Plus(s.r[SP], -4);
      var pushed := s.mem[sp as int := Plus(s.pc, ahead)];
      && Step(ahead, s).Some?
      && Step(ahead, Step(ahead, s).value)
         == Some(s.(pc := o.func(o.Found(k)), r := s.r[SP := sp], mem := pushed))
    ensures o.Length(o.Found(k)) == 3
  {
    hide Job.Site, Job.Final, MatchAt, Entry, Step, Pushed, Plus, At, Loaded, Aligned;
    PushKind(o.Found(k));
    PushWords(o, base, k, s);
    Pushes(ahead, s);
    PushedIs(ahead, s);
    Jumps(ahead, Pushed(s, ahead), o.func(o.Found(k)));
  }

  lemma PushWords<D>(o: Job, base: Word, k: nat, s: Cpu<D>)
    requires o.Valid() && AtSite(o, base, k, s) && Entry(o.Found(k)).kind == 1
    ensures At(s.mem, s.pc) == 0xe92d_8000 && At(s.mem, Plus(s.pc, 4)) == 0xe51f_f004
    ensures At(s.mem, Plus(Plus(s.pc, 4), 4)) == o.func(o.Found(k))
    ensures Plus(s.pc, 4) as int == base as int + 4 * (k + 1)
    ensures Plus(Plus(s.pc, 4), 4) as int == base as int + 4 * (k + 2) && Aligned(Plus(Plus(s.pc, 4), 4))
    ensures Plus(Plus(Plus(s.pc, 4), 8), -4) == Plus(Plus(s.pc, 4), 4)
  {
    hide Job.Site, Job.Final, MatchAt, Entry, At, Plus;
    SiteWord(o, base, k, 0, s);
    SiteWord(o, base, k, 1, s);
    SiteWord(o, base, k, 2, s);
    CodeAddress(o, base, k, 1);
    CodeAddress(o, base, k + 1, 1);
    CodeAddress(o, base, k + 2, 0);
  }

  lemma PushedIs<D>(ahead: nat, s: Cpu<D>)
    ensures
      var sp := Plus(s.r[SP], -4);
      var t := Pushed(s, ahead);
      && t == s.(pc := Plus(s.pc, 4), r := s.r[SP := sp], mem := s.mem[sp as int := Plus(s.pc, ahead)])
      && forall a: int | a != sp :: At(t.mem, a) == At(s.mem, a)
  {
  }

  ghost function Pushed<D>(s: Cpu<D>, ahead: nat): Cpu<D> {
    var sp := Plus(s.r[SP], -4);
    s.(pc := Plus(s.pc, 4), r := s.r[SP := sp], mem := s.mem[sp as int := Plus(s.pc, ahead)])
  }

  lemma Pushes<D>(ahead: nat, s: Cpu<D>)
    requires At(s.mem, s.pc) == 0xe92d_8000 && Aligned(s.r[SP])
    ensures Step(ahead, s) == Some(Pushed(s, ahead))
  {
    StackAligned(s.r[SP]);
    hide Decode, Execute, Plus;
  }

  lemma Jumps<D>(ahead: nat, s: Cpu<D>, target: Word)
    requires At(s.mem, s.pc) == 0xe51f_f004 && At(s.mem, Plus(s.pc, 4)) == target
    requires Aligned(Plus(s.pc, 4)) && Plus(Plus(s.pc, 8), -4) == Plus(s.pc, 4)
    ensures Step(ahead, s) == Some(s.(pc := target))
  {
    LoadDecodes();
    hide Decode, Plus, At, Aligned;
  }

  lemma StackAligned(sp: Word)
    requires Aligned(sp)
    ensures Aligned(Plus(sp, -4))
  {
  }

  /** The hw_ entries are three words: the call, a comparison for errors, and a copy of the result to r4. */
  lemma PushKind(i: nat)
    requires i < TABLE_SIZE && Entry(i).kind == 1
    ensures |Entry(i).sig| == 3 && Entry(i).sig[1..] == [0xe370_0a01, 0xe1a0_4000] && Entry(i).loose == {}
  {
  }

  /** A cache operation has become one that does nothing. */
  lemma CachePatch<D>(o: Job, base: Word, k: nat, s: Cpu<D>, ahead: nat)
    requires o.Valid() && AtSite(o, base, k, s) && Entry(o.Found(k)).kind == 2
    ensures Step(ahead, s) == Some(s.(pc := Plus(s.pc, 4)))
  {
    hide Job.Site, Job.Final, MatchAt, Entry, At, Decode;
    SiteWord(o, base, k, 0, s);
    LoadDecodes();
    assert s.r[0 := s.r[0]] == s.r;
  }

  /**
   Which words are patched: those from which on an entry is found and no earlier patched match reaches. A cache
   operation must also have a word before it that is from 0xe0000000 to 0xefffffff once the words before are patched.
   */
  lemma PatchedExactly(o: Job, k: nat)
    requires o.Valid() && k < o.end
    ensures
      o.Site(k) <==>
        && o.Found(k) <= 16
        && (forall j | 0 <= j < k && o.Site(j) :: j + |Entry(o.Found(j)).sig| <= k)
        && (o.Found(k) >= 15 ==> k > 0 && 0xe000_0000 <= o.Final(k - 1) && o.Final(k - 1) <= 0xefff_ffff)
  {
    hide MatchAt, Job.Final;
    if o.Found(k) <= 16 { CachesAre(o.Found(k)); }
    hide Entry;
  }

  lemma CachesAre(i: nat)
    requires i < TABLE_SIZE
    ensures Entry(i).kind == 2 <==> i >= 15
  {
  }

  // ----- there and back through a hw_ wrapper

  /** What the C function called by a wrapper leaves: its result, any scratch registers, and memory. */
  datatype Reply = Reply(r0: Word, scratch: Regs, mem: Mem)

  predicate Scratch(i: nat) { i in {1, 2, 3, 12, 14} }

  /** The result is in r0, and the other registers of the calling convention are not to be relied on. */
  function Replied(r: Regs, reply: Reply): Regs {
    seq(15, i requires 0 <= i < 15 => RepliedOne(r, reply, i))
  }

  function RepliedOne(r: Regs, reply: Reply, i: nat): Word
    requires i < 15
  {
    if i == 0 then reply.r0 else if Scratch(i) then reply.scratch[i] else r[i]
  }

  /** N, Z, C and V of the addition of 0x1000, which `cmn r0, #0x1000` compares by. */
  function Compared(cpsr: Word, w: Word): Word {
    var sum := w as int + 0x1000;
    (if Wrap(sum) >= 0x8000_0000 then 0x8000_0000 else 0) + (if Wrap(sum) == 0 then 0x4000_0000 else 0)
    + (if sum >= 0x1_0000_0000 then 0x2000_0000 else 0)
    + (if Signed(w) + 0x1000 >= 0x8000_0000 then 0x1000_0000 else 0) + cpsr % 0x1000_0000
  }

  /** `stmfd sp!, {r1-r3,r12,lr}`. */
  ghost function SaveFive<D>(s: Cpu<D>): Cpu<D>
    requires s.r[SP] >= 20
  {
    var sp: Word := s.r[SP] - 20;
    s.(r := s.r[SP := sp], mem := s.mem[sp as int := s.r[1]][sp as int + 4 := s.r[2]][sp as int + 8 := s.r[3]]
                                       [sp as int + 12 := s.r[12]][sp as int + 16 := s.r[LR]])
  }

  /** Where the machine stores pc 8 bytes ahead, the pushed address is moved on by 4, through r12. */
  ghost function Adjusted<D>(s: Cpu<D>): Cpu<D> {
    var slot := s.r[SP] as int + 20;
    var back := Plus(At(s.mem, slot), 4);
    s.(r := s.r[12 := back], mem := s.mem[slot := back])
  }

  /** `ldmfd sp!, {r1-r3,r12,lr,pc}`. */
  ghost function RestoreSix<D>(s: Cpu<D>): Cpu<D>
    requires s.r[SP] < 0xffff_ffe8
  {
    var sp := s.r[SP] as int;
    s.(r := s.r[1 := At(s.mem, sp)][2 := At(s.mem, sp + 4)][3 := At(s.mem, sp + 8)][12 := At(s.mem, sp + 12)]
               [LR := At(s.mem, sp + 16)][SP := sp + 24], pc := At(s.mem, sp + 20))
  }

  /** A hw_ wrapper, entered with the pushed address on top of the stack. */
  ghost function Wrapper<D>(s: Cpu<D>, adjust: bool, reply: Reply): Cpu<D>
    requires 20 <= s.r[SP] < 0xffff_fff0
  {
    var saved := if adjust then Adjusted(SaveFive(s)) else SaveFive(s);
    var called := saved.(r := Replied(saved.r, reply), mem := reply.mem);
    RestoreSix(called.(cpsr := Compared(called.cpsr, called.r[0]), r := called.r[4 := called.r[0]]))
  }

  /** The three words that were there: the call, which gives its result in r0, the comparison, and the copy to r4. */
  ghost function ThreeWords<D>(s: Cpu<D>, result: Word, m: Mem): Cpu<D> {
    s.(r := s.r[0 := result][4 := result], cpsr := Compared(s.cpsr, result), pc := Plus(s.pc, 12), mem := m)
  }

  /** The C function leaves what the wrapper has put on the stack. */
  ghost predicate KeepsStack(m: Mem, m': Mem, sp: int) {
    forall a | sp - 24 <= a < sp :: At(m', a) == At(m, a)
  }

  /**
   Through pushing, jumping and the wrapper, a hw_ patch does to r0-r14, flags and pc what its three words did if the
   system call gave the wrapper's result; memory is as the C function leaves it.
   */
  lemma PushPatchReturns<D>(o: Job, base: Word, k: nat, s: Cpu<D>, adjust: bool, reply: Reply)
    requires o.Valid() && AtSite(o, base, k, s) && Entry(o.Found(k)).kind == 1
    requires Aligned(s.r[SP]) && 24 <= s.r[SP] < 0xffff_fff0
    requires s.r[SP] as int - 4 != base as int + 4 * (k + 1) && s.r[SP] as int - 4 != base as int + 4 * (k + 2)
    requires
      var ahead := if adjust then 8 else 12;
      var saved := SaveFive(Pushed(s, ahead).(pc := o.func(o.Found(k))));
      KeepsStack(if adjust then Adjusted(saved).mem else saved.mem, reply.mem, s.r[SP])
    ensures
      var ahead := if adjust then 8 else 12;
      && Step(ahead, s).Some? && Step(ahead, Step(ahead, s).value).Some?
      && var entered := Step(ahead, Step(ahead, s).value).value;
         && 20 <= entered.r[SP] < 0xffff_fff0
         && Wrapper(entered, adjust, reply) == ThreeWords(s, reply.r0, reply.mem)
  {
    var ahead := if adjust then 8 else 12;
    hide Job.Site, Job.Final, MatchAt, Entry, Loaded, Step, Aligned, Wrapper, ThreeWords, KeepsStack, SaveFive;
    hide Adjusted, At, Plus;
    var target := o.func(o.Found(k));
    PlusSmall(s.r[SP], -4);
    PushPatch(o, base, k, s, ahead);
    assert Pushed(s, ahead).(pc := target).r[SP] == s.r[SP] - 4;
    WrapperReturns(s, ahead, adjust, target, reply);
  }

  lemma WrapperReturns<D>(s: Cpu<D>, ahead: nat, adjust: bool, target: Word, reply: Reply)
    requires 24 <= s.r[SP] < 0xffff_fff0 && ahead == (if adjust then 8 else 12)
    requires
      var saved := SaveFive(Pushed(s, ahead).(pc := target));
      KeepsStack(if adjust then Adjusted(saved).mem else saved.mem, reply.mem, s.r[SP])
    ensures Wrapper(Pushed(s, ahead).(pc := target), adjust, reply) == ThreeWords(s, reply.r0, reply.mem)
  {
    hide Compared, SaveFive, Adjusted, RestoreSix, Replied, Plus, At, KeepsStack, Pushed;
    StackSaved(s, ahead, target);
    var saved := SaveFive(Pushed(s, ahead).(pc := target));
    PlusPlus(s.pc, 8, 4);
    if adjust { StackAdjusted(saved); }
    var kept := if adjust then Adjusted(saved) else saved;
    assert OnStack(reply.mem, s, Plus(s.pc, 12)) by { StackStays(kept.mem, reply.mem, s, Plus(s.pc, 12)); }
    var called := kept.(r := Replied(kept.r, reply), mem := reply.mem);
    RepliedFirst(kept.r, reply);
    AllRestored(s, kept.r, called.(cpsr := Compared(called.cpsr, called.r[0]), r := called.r[4 := called.r[0]]), reply);
  }

  lemma RepliedFirst(r: Regs, reply: Reply)
    ensures Replied(r, reply)[0] == reply.r0
  {
  }

  /** Five registers of s and an address lie on the stack below s's stack pointer. */
  ghost predicate OnStack<D>(m: Mem, s: Cpu<D>, back: Word) {
    var sp := s.r[SP] as int - 24;
    && At(m, sp) == s.r[1] && At(m, sp + 4) == s.r[2] && At(m, sp + 8) == s.r[3] && At(m, sp + 12) == s.r[12]
    && At(m, sp + 16) == s.r[LR] && At(m, sp + 20) == back
  }

  /** The registers a call keeps are those of s, and the stack pointer is 24 below. */
  predicate Kept(r: Regs, r0: Regs) {
    r[SP] as int == r0[SP] as int - 24 && forall i | 4 <= i < 12 :: r[i] == r0[i]
  }

  lemma StackSaved<D>(s: Cpu<D>, ahead: nat, target: Word)
    requires 24 <= s.r[SP]
    ensures var entered := Pushed(s, ahead).(pc := target); entered.r[SP] == s.r[SP] - 4
    ensures
      var saved := SaveFive(Pushed(s, ahead).(pc := target));
      && OnStack(saved.mem, s, Plus(s.pc, ahead)) && Kept(saved.r, s.r)
      && saved == s.(pc := target, r := saved.r, mem := saved.mem)
  {
    PlusSmall(s.r[SP], -4);
    hide Plus;
  }

  lemma StackAdjusted<D>(s: Cpu<D>)
    requires s.r[SP] < 0xffff_ffe8
    ensures
      var t := Adjusted(s);
      var sp := s.r[SP] as int;
      && t == s.(r := t.r, mem := t.mem) && (forall i | 0 <= i < 15 && i != 12 :: t.r[i] == s.r[i])
      && At(t.mem, sp + 20) == Plus(At(s.mem, sp + 20), 4) && forall a | a != sp + 20 :: At(t.mem, a) == At(s.mem, a)
  {
    hide Plus;
  }

  lemma StackStays<D>(m: Mem, m': Mem, s: Cpu<D>, back: Word)
    requires OnStack(m, s, back) && KeepsStack(m, m', s.r[SP])
    ensures OnStack(m', s, back)
  {
    hide At;
  }

  lemma AllRestored<D>(s: Cpu<D>, r: Regs, t: Cpu<D>, reply: Reply)
    requires 24 <= s.r[SP] < 0xffff_fff0 && Kept(r, s.r) && OnStack(reply.mem, s, Plus(s.pc, 12))
    requires t == s.(pc := t.pc, cpsr := Compared(s.cpsr, reply.r0), mem := reply.mem,
                     r := Replied(r, reply)[4 := reply.r0])
    ensures t.r[SP] < 0xffff_ffe8 && RestoreSix(t) == ThreeWords(s, reply.r0, reply.mem)
  {
    hide Compared, At, Plus;
    var u := RestoreSix(t);
    forall i | 0 <= i < 15 ensures u.r[i] == s.r[0 := reply.r0][4 := reply.r0][i] {
    }
  }

  // ----- what is replaced

  /** The Linux system calls that the jump and push entries stand for, by number; sigaction is matched by its code. */
  const NUMBERS: seq<Option<nat>> := [
    Some(5), Some(5), Some(5),           // open, open_a1, hw_open
    Some(90), Some(192), Some(91),       // mmap, mmap2, munmap
    Some(3), Some(3), Some(3),           // read, read_a1, hw_read
    Some(54), Some(54),                  // ioctl, hw_ioctl
    None, Some(11),                      // sigaction, hw_execve
    Some(12), Some(85), None, None]      // chdir, readlink, the cache operations

  /** A system call instruction of the old ABI. */
  predicate Calls(w: Word) { 0xef90_0000 <= w < 0xef91_0000 }

  /** Every other entry has one system call in it, and it is that one. */
  lemma EntryCalls(i: nat, t: nat)
    requires i < TABLE_SIZE && t < |Entry(i).sig|
    ensures |NUMBERS| == TABLE_SIZE
    ensures NUMBERS[i].None? <==> i == 11 || Entry(i).kind == 2
    ensures Calls(Entry(i).sig[t]) ==> NUMBERS[i].Some? && Entry(i).sig[t] == 0xef90_0000 + NUMBERS[i].value
    ensures Calls(Entry(i).sig[t]) ==> t !in Entry(i).loose
  {
  }

  lemma EntryCallsOnce(i: nat)
    requires i < TABLE_SIZE
    ensures NUMBERS[i].Some? <==> exists t :: 0 <= t < |Entry(i).sig| && Calls(Entry(i).sig[t])
  {
    var p := Entry(i);
    if i == 0 { assert Calls(p.sig[3]); }
    if i in {1, 2, 5, 7, 8, 9, 10, 12, 13, 14} { assert Calls(p.sig[0]); }
    if i == 3 { assert Calls(p.sig[2]); }
    if i == 4 { assert Calls(p.sig[7]); }
    if i == 6 { assert Calls(p.sig[4]); }
  }

  // ----- the stubs there are

  /** Stubs as C libraries have them, whatever their branches lead to. */
  function Stub(i: nat, b: nat, c: nat): seq<Word>
    requires i < TABLE_SIZE && b < 0x100_0000 && c < 0x100_0000
  {
    match i
    case 0 => [0xe59c_c000, 0xe33c_0000, 0x1a00_0003, 0xef90_0005]  // ldr ip, [ip]; teq ip, #0; bne; svc
    case 1 => [0xef90_0005, 0xe1a0_f00e]                            // svc; mov pc, lr
    case 3 => [0xe92d_000f, 0xe1a0_000d, 0xef90_005a, 0xe28d_d010]  // push {r0-r3}; mov r0, sp; svc; add sp, sp, #16
    case 4 =>                                                       // push {r5}; ldr r5; push {r4}; ldr r4; lsls; bne
      [0xe52d_5004, 0xe59d_5008, 0xe52d_4004, 0xe59d_4008, 0xe1b0_ca05, 0x1a00_0006, 0xe1a0_5625, 0xef90_00c0]
    case 6 =>                                                       // ldr ip, [pc, #128]; ldr ip, [ip]; teq; bne; svc
      [0xe59f_c080, 0xe59c_c000, 0xe33c_0000, 0x1a00_0003, 0xef90_0003]
    case 11 =>                                                      // ldr r3, [pc, #12]; cmp r3, #0; beq; b; b
      [0xe59f_300c, 0xe353_0000, 0x0a00_0000, 0xea00_0000 + b, 0xea00_0000 + c]
    case 13 =>                                                      // svc; cmn r0, #4096; bxcc lr; b
      [0xef90_000c, 0xe370_0a01, 0x312f_ff1e, 0xea00_0000 + b]
    case 15 => [0xee07_3f5e]                                        // mcr 15, 0, r3, cr7, cr14, 2
    case 16 => [0xee07_0f17]                                        // mcr 15, 0, r0, cr7, cr7, 0
    case _ =>
      var svc: Word := 0xef90_0000 + [0, 0, 5, 0, 0, 91, 0, 3, 3, 54, 54, 0, 11, 0, 85][i];
      if i in {2, 8, 10, 12} then [svc, 0xe370_0a01, 0xe1a0_4000]   // svc; cmn r0, #0x1000; mov r4, r0
      else [svc, 0xe370_0a01, 0x312f_ff1e]                          // svc; cmn r0, #0x1000; bxcc lr
  }

  /** Each of them is found, at any place in the code, and as no other entry. */
  lemma StubFound(o: Job, k: nat, i: nat, b: nat, c: nat)
    requires i < TABLE_SIZE && b < 0x100_0000 && c < 0x100_0000 && o.Valid() && k < o.end
    requires
      var stub := Stub(i, b, c);
      forall t | 0 <= t < |stub| :: o.code[k + t] == stub[t]
    ensures o.Found(k) == i && o.Length(i) == |Stub(i, b, c)|
  {
    hide Matches, Entry, Stub;
    StubLength(i, b, c);
    forall t | 0 <= t < |Entry(i).sig| ensures WordMatches(o.code, k, i, t) {
      assert o.code[k + t] == Stub(i, b, c)[t];
      StubWord(i, b, c, t);
    }
    assert Matches(o.code, k, i) by { AllMatch(o.code, k, i); }
    FoundIs(o, k, i);
  }

  lemma AllMatch(code: seq<Word>, k: nat, i: nat)
    requires i < TABLE_SIZE && k + LONGEST <= |code|
    requires forall t | 0 <= t < |Entry(i).sig| :: WordMatches(code, k, i, t)
    ensures Matches(code, k, i)
  {
    hide Entry, WordMatches;
  }

  lemma StubLength(i: nat, b: nat, c: nat)
    requires i < TABLE_SIZE && b < 0x100_0000 && c < 0x100_0000
    ensures |Stub(i, b, c)| == |Entry(i).sig|
  {
  }

  lemma StubWord(i: nat, b: nat, c: nat, t: nat)
    requires i < TABLE_SIZE && b < 0x100_0000 && c < 0x100_0000 && t < |Entry(i).sig| == |Stub(i, b, c)|
    ensures
      var p, word := Entry(i), Stub(i, b, c)[t];
      if t in p.loose then word / 0x100_0000 == p.sig[t] / 0x100_0000 else word == p.sig[t]
  {
    if i in {11, 13} {
      assert (0xea00_0000 + b) / 0x100_0000 == 0xea && (0xea00_0000 + c) / 0x100_0000 == 0xea;
    }
  }
}
