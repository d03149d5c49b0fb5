/**
 The fault-driven patcher: `segv_sigaction`, which swaps a faulting instruction for a branch and bump-allocates
 its trampoline in a linkpage, and the linkpage regions that `emu_init` places below the program.
 */
module Linkpages {
  import opened Words
  import opened IoOps
  import opened Arm
  import opened Trampoline

  const PAGE_SIZE := 0x1000
  const PAGE_COUNT := 4
  const REGION_SIZE := 0x4000
  const ENTRY_SIZE := 36   // an op_context and its seven words
  const PER_PAGE := 113

  /** A linkpage in use, and its `code_ptr`. */
  datatype Region = Region(page: Word, next: Word)

  /** `g_linkpages`, with None for NULL, and `g_linkpage_count`, which both regions share. */
  datatype Alloc = Alloc(regions: seq<Option<Region>>, count: nat)

  datatype Patcher = Patcher(mem: Mem, alloc: Alloc)

  datatype Exit = RealCrash | Fatal | Resume

  datatype Outcome = Died(exit: Exit) | Patched(state: Patcher)

  /** Where `emu_init` maps the region for a program that starts at bottom; NULL stays NULL. */
  function RegionBase(bottom: Word): Word {
    if bottom == 0 then 0 else Plus(bottom, -REGION_SIZE) / PAGE_SIZE * PAGE_SIZE
  }

  lemma RegionBaseFits(bottom: Word)
    requires bottom <= TOP && (bottom == 0 || bottom >= REGION_SIZE + PAGE_SIZE)
    ensures RegionBase(bottom) as int + PAGE_SIZE * PAGE_COUNT <= TOP && (RegionBase(bottom) == 0 <==> bottom == 0)
  {
  }

  /** The headers that `init_linkpage` writes at start-up. */
  function WithFirstHeaders(m: Mem, host: Host, first: Word, second: Word): Mem {
    var m1 := if first == 0 then m else m[Plus(first, 4) as int := host.stub];
    if second == 0 then m1 else m1[Plus(second, 4) as int := host.stub]
  }

  // ----- what the handler computes

  /** The handler leaves faults alone in its own text, in the first linkpage region, or outside the register window. */
  predicate Foreign(selfStart: Word, selfEnd: Word, a: Alloc, pc: Word, addr: Word)
    requires |a.regions| == 2
  {
    || selfStart <= pc <= selfEnd
    || pc / REGION_SIZE == (if a.regions[0].Some? then a.regions[0].value.page / REGION_SIZE else 0)
    || addr / 0x20_0000 != 0x7f00_0000 / 0x20_0000
  }

  /** The word distance that the search for a near linkpage tests. */
  function Tested(next: Word, pc: Word): int {
    PtrDiff(Plus(next, 8), pc) - 2
  }

  predicate Near(r: Option<Region>, pc: Word) {
    r.Some? && -0x80_0000 <= Tested(r.value.next, pc) <= 0x7f_ffff
  }

  function Chosen(a: Alloc, pc: Word): (i: nat)
    requires |a.regions| == 2
  {
    if Near(a.regions[0], pc) then 0 else if Near(a.regions[1], pc) then 1 else 2
  }

  /** The allocator after an entry has been emitted in region i. */
  function Bumped(a: Alloc, i: nat): Alloc
    requires i < |a.regions| && a.regions[i].Some?
  {
    var r := a.regions[i].value;
    a.(regions := a.regions[i := Some(r.(next := Plus(r.next, ENTRY_SIZE)))])
  }

  /** The move to the region's next page, made when another entry might not fit; None when no page is left. */
  function Turned(a: Alloc, i: nat): Option<Alloc>
    requires i < |a.regions| && a.regions[i].Some?
  {
    var page, next := a.regions[i].value.page, a.regions[i].value.next;
    if Wrap(next as int - page) as int + 14 * 4 <= PAGE_SIZE then Some(a)
    else if a.count + 1 >= PAGE_COUNT then None
    else Some(Alloc(a.regions[i := Some(Region(Plus(page, PAGE_SIZE), Plus(page, PAGE_SIZE + 8)))], a.count + 1))
  }

  function Taken(a: Alloc, i: nat): Option<Alloc>
    requires i < |a.regions| && a.regions[i].Some?
  {
    Turned(Bumped(a, i), i)
  }

  /** Entering a new page stores the handler's address in its header. */
  ghost function WithHeader(m: Mem, host: Host, before: Alloc, after: Alloc, i: nat): Mem
    requires i < |after.regions| && after.regions[i].Some?
  {
    if after.count == before.count then m else m[Plus(after.regions[i].value.page, 4) as int := host.stub]
  }

  ghost function WithWords(m: Mem, at: Word, words: seq<Word>): Mem
    decreases |words|
  {
    if words == [] then m else WithWords(m[at as int := words[0]], Plus(at, 4), words[1..])
  }

  /** Memory with the context, the branch and the seven words in place. */
  ghost function WithTrampoline(m: Mem, p: Place): Mem
    requires p.Load().Some? && p.Back().Some? && p.Out().Some?
  {
    var m1 := m[p.c as int := p.site][Plus(p.c, 4) as int := p.op][p.site as int := p.Out().value];
    WithWords(m1, p.Code(), TrampolineWords(p.LoadWord(), p.Back().value))
  }

  function NewPlace(s: Patcher, i: nat, pc: Word): Place
    requires i < |s.alloc.regions| && s.alloc.regions[i].Some?
  {
    var r := s.alloc.regions[i].value;
    Place(r.page, r.next, pc, At(s.mem, pc))
  }

  /** One fault of the instruction at pc on address addr. */
  ghost function Segv(host: Host, selfStart: Word, selfEnd: Word, s: Patcher, pc: Word, addr: Word): Outcome
    requires |s.alloc.regions| == 2
  {
    if Foreign(selfStart, selfEnd, s.alloc, pc, addr) then Died(RealCrash)
    else
      var i := Chosen(s.alloc, pc);
      if i == 2 then Died(Fatal)
      else
        var p := NewPlace(s, i, pc);
        if p.Out().None? || p.Load().None? || p.Back().None? then Died(Fatal)
        else match Taken(s.alloc, i)
          case None => Died(Fatal)
          case Some(a) => Patched(Patcher(WithHeader(WithTrampoline(s.mem, p), host, s.alloc, a, i), a))
  }

  /** The 16 KB block that the first region's page is in; the first block of memory, if there is no region. */
  predicate InFirstBlock(a: Alloc, pc: Word)
    requires |a.regions| == 2
  {
    var first := if a.regions[0].Some? then a.regions[0].value.page as int else 0;
    first - first % 0x4000 <= pc && pc as int < first - first % 0x4000 + 0x4000
  }

  /**
   Which faults are real crashes: those of an instruction in the loader's own text, those in the first
   region's block, and those on an address below 0x7f000000 or
   above 0x7f1fffff.
   */
  lemma RealCrashExactly(host: Host, selfStart: Word, selfEnd: Word, s: Patcher, pc: Word, addr: Word)
    requires |s.alloc.regions| == 2
    ensures
      Segv(host, selfStart, selfEnd, s, pc, addr) == Died(RealCrash) <==>
        || (selfStart <= pc && pc <= selfEnd) || InFirstBlock(s.alloc, pc) || addr < 0x7f00_0000 || addr > 0x7f1f_ffff
  {
    hide Chosen, Taken, WithTrampoline, WithHeader, Place.Out, Place.Load, Place.Back, Foreign;
    ForeignExactly(selfStart, selfEnd, s.alloc, pc, addr);
  }

  lemma ForeignExactly(selfStart: Word, selfEnd: Word, a: Alloc, pc: Word, addr: Word)
    requires |a.regions| == 2
    ensures
      Foreign(selfStart, selfEnd, a, pc, addr) <==>
        || (selfStart <= pc && pc <= selfEnd) || InFirstBlock(a, pc) || addr < 0x7f00_0000 || addr > 0x7f1f_ffff
  {
    SameBlock(pc, if a.regions[0].Some? then a.regions[0].value.page else 0);
  }

  lemma SameBlock(a: Word, b: Word)
    ensures a / REGION_SIZE == b / REGION_SIZE
       <==> b as int - b as int % 0x4000 <= a && a as int < b as int - b as int % 0x4000 + 0x4000
  {
  }

  /** From the address of the next code word but one to pc, in bytes, as a signed number. */
  function Gap(next: Word, pc: Word): int {
    Signed(Wrap(next as int + 8 - pc))
  }

  /** The region is there, and its next code word but one is less than about 32 MB away. */
  predicate InRange(r: Option<Region>, pc: Word) {
    r.Some? && -0x1ff_fff8 <= Gap(r.value.next, pc) <= 0x200_0007
  }

  lemma NearIsInRange(r: Option<Region>, pc: Word)
    ensures Near(r, pc) <==> InRange(r, pc)
  {
    if r.Some? {
      GapOfPlus(r.value.next, 8, pc);
      hide Plus, Wrap;
    }
  }

  /** The distance may be taken before or after the 8 bytes are added. */
  lemma GapOfPlus(a: Word, n: int, b: Word)
    ensures Wrap(Plus(a, n) as int - b) == Wrap(a as int + n - b)
  {
    WrapPeriod(Plus(a, n) as int - b, (a as int + n) / 0x1_0000_0000);
  }

  /** Where a fault is patched, the code goes to the first region exactly if that is in range, else to the second. */
  lemma FirstNearRegion(host: Host, selfStart: Word, selfEnd: Word, s: Patcher, pc: Word, addr: Word, s': Patcher)
    requires |s.alloc.regions| == 2 && Segv(host, selfStart, selfEnd, s, pc, addr) == Patched(s')
    ensures
      var i := if InRange(s.alloc.regions[0], pc) then 0 else 1;
      && |s'.alloc.regions| == 2 && InRange(s.alloc.regions[i], pc)
      && s'.alloc.regions[1 - i] == s.alloc.regions[1 - i] && s'.alloc.regions[i] != s.alloc.regions[i]
  {
    hide Near, InRange, Taken, MakeJmp, MakeOffset12, WithTrampoline, WithHeader, Foreign;
    NearIsInRange(s.alloc.regions[0], pc);
    NearIsInRange(s.alloc.regions[1], pc);
    ChosenIsThere(s.alloc, pc);
    TakenMovesOne(s.alloc, Chosen(s.alloc, pc));
  }

  lemma TakenMovesOne(a: Alloc, i: nat)
    requires |a.regions| == 2 && i < 2 && a.regions[i].Some? && Taken(a, i).Some?
    ensures
      var b := Taken(a, i).value;
      |b.regions| == 2 && b.regions[1 - i] == a.regions[1 - i] && b.regions[i] != a.regions[i]
  {
    var r := a.regions[i].value;
    assert Plus(r.next, ENTRY_SIZE) != r.next;
    assert Plus(r.page, PAGE_SIZE) != r.page;
    hide Plus, Wrap;
  }

  // ----- the handler itself

  class LinkPatcher {
    const host: Host
    const selfStart: Word
    const selfEnd: Word
    var mem: Mem
    var pages: seq<Word>     // g_linkpages
    var codePtrs: seq<Word>  // their code_ptr fields
    var count: nat           // g_linkpage_count

    ghost predicate Shape()
      reads this
    {
      |pages| == 2 && |codePtrs| == 2
    }

    /** No page address can wrap around while pages are left. */
    ghost predicate Valid()
      reads this
    {
      && Shape() && count < PAGE_COUNT
      && pages[0] as int + PAGE_SIZE * (PAGE_COUNT - count) <= TOP
      && pages[1] as int + PAGE_SIZE * (PAGE_COUNT - count) <= TOP
    }

    ghost function RegionAt(i: nat): Option<Region>
      requires Shape() && i < 2
      reads this
    {
      if pages[i] == 0 then None else Some(Region(pages[i], codePtrs[i]))
    }

    ghost function State(): (s: Patcher)
      requires Shape()
      reads this
      ensures |s.alloc.regions| == 2
    {
      Patcher(mem, Alloc([RegionAt(0), RegionAt(1)], count))
    }

    /** The linkpage part of `emu_init`. */
    constructor (host: Host, selfStart: Word, selfEnd: Word, m: Mem, bottoms: seq<Word>)
      requires |bottoms| == 2 && bottoms[0] <= TOP && bottoms[1] <= TOP
      requires bottoms[0] == 0 || bottoms[0] >= REGION_SIZE + PAGE_SIZE
      requires bottoms[1] == 0 || bottoms[1] >= REGION_SIZE + PAGE_SIZE
      ensures Valid() && count == 0 && this.host == host && this.selfStart == selfStart && this.selfEnd == selfEnd
      ensures pages == [RegionBase(bottoms[0]), RegionBase(bottoms[1])]
      ensures forall i | 0 <= i < 2 && pages[i] != 0 :: codePtrs[i] == Plus(pages[i], 8)
      ensures mem == WithFirstHeaders(m, host, pages[0], pages[1])
    {
      hide Wrap, Plus, RegionBase;
      RegionBaseFits(bottoms[0]);
      RegionBaseFits(bottoms[1]);
      this.host, this.selfStart, this.selfEnd := host, selfStart, selfEnd;
      mem, pages, codePtrs, count := m, [0, 0], [0, 0], 0;
      new;
      var i := 0;
      while i < 2
        invariant 0 <= i <= 2 && Shape() && count == 0
        invariant forall j | 0 <= j < 2 :: pages[j] == if j < i then RegionBase(bottoms[j]) else 0
        invariant forall j | 0 <= j < i && pages[j] != 0 :: codePtrs[j] == Plus(pages[j], 8)
        invariant mem == WithFirstHeaders(m, host, pages[0], pages[1])
      {
        if bottoms[i] != 0 {
          pages := pages[i := RegionBase(bottoms[i])];
          InitLinkpage(i);
        }
        i := i + 1;
      }
    }

    /** `emit_op` */
    method EmitOp(i: nat, op: Word)
      requires Shape() && i < 2
      modifies this`mem, this`codePtrs
      ensures mem == old(mem[codePtrs[i] as int := op]) && codePtrs == old(codePtrs[i := Plus(codePtrs[i], 4)])
    {
      mem := mem[codePtrs[i] as int := op];
      codePtrs := codePtrs[i := Plus(codePtrs[i], 4)];
    }

    /** The seven `emit_op` calls in a row. */
    method EmitAll(i: nat, words: seq<Word>)
      requires Shape() && i < 2
      modifies this`mem, this`codePtrs
      ensures mem == WithWords(old(mem), old(codePtrs[i]), words)
      ensures codePtrs == old(codePtrs)[i := Plus(old(codePtrs[i]), 4 * |words|)]
    {
      hide Wrap;
      var j := 0;
      PlusNothing(codePtrs[i]);
      while j < |words|
        invariant 0 <= j <= |words| && Shape()
        invariant WithWords(old(mem), old(codePtrs[i]), words) == WithWords(mem, codePtrs[i], words[j..])
        invariant codePtrs == old(codePtrs)[i := Plus(old(codePtrs[i]), 4 * j)]
      {
        EmitOp(i, words[j]);
        PlusPlus(old(codePtrs[i]), 4 * j, 4);
        assert words[j..][1..] == words[j + 1..];
        j := j + 1;
      }
    }

    /** `init_linkpage` for the page just entered in `g_linkpages`. */
    method InitLinkpage(i: nat)
      requires Shape() && i < 2
      modifies this`mem, this`codePtrs
      ensures mem == old(mem[Plus(pages[i], 4) as int := host.stub])
      ensures codePtrs == old(codePtrs[i := Plus(pages[i], 8)])
    {
      mem := mem[Plus(pages[i], 4) as int := host.stub];
      codePtrs := codePtrs[i := Plus(pages[i], 8)];
    }

    /** The search for a nearby linkpage. */
    method FindNear(pc: Word) returns (i: nat)
      requires Shape()
      ensures i == Chosen(State().alloc, pc)
    {
      i := 0;
      while i < 2
        invariant 0 <= i <= 2
        invariant forall j | 0 <= j < i :: !Near(RegionAt(j), pc)
      {
        if pages[i] != 0 {
          var distance := PtrDiff(Plus(codePtrs[i], 8), pc) - 2;
          if -0x80_0000 <= distance <= 0x7f_ffff { return; }
        }
        i := i + 1;
      }
    }

    /** Context, branch and generated code; false is an `abort` in an encoder. */
    method Generate(i: nat, pc: Word) returns (ok: bool)
      requires Shape() && i < 2 && pages[i] != 0
      modifies this`mem, this`codePtrs
      ensures Shape()
      ensures var p := NewPlace(old(State()), i, pc);
              && ok == (p.Out().Some? && p.Load().Some? && p.Back().Some?)
              && (ok ==> mem == WithTrampoline(old(mem), p))
              && (ok ==> State().alloc == Bumped(old(State()).alloc, i))
    {
      hide MakeJmp, MakeOffset12, Wrap, WithWords, Or;
      var context, op := codePtrs[i], At(mem, pc);
      mem := mem[context as int := pc][Plus(context, 4) as int := op];
      codePtrs := codePtrs[i := Plus(context, 8)];
      var jump := MakeJmp(pc, codePtrs[i], false);
      if jump.None? { return false; }
      mem := mem[pc as int := jump.value];
      var offset := MakeOffset12(Plus(context, 24), Plus(pages[i], 4));
      var back := MakeJmp(Plus(context, 32), Plus(pc, 4), false);
      if offset.None? || back.None? { return false; }
      OffsetDecodes(Plus(context, 24), Plus(pages[i], 4));
      EmitAll(i, TrampolineWords(Or(0xe51f_f000, offset.value), back.value));
      PlusPlus(context, 8, 28);
      return true;
    }

    /** The end of the handler: on to the region's next page if need be; false is its `abort`. */
    method Turn(i: nat) returns (ok: bool)
      requires Valid() && i < 2 && pages[i] != 0
      modifies this`mem, this`pages, this`codePtrs, this`count
      ensures ok == Turned(old(State()).alloc, i).Some?
      ensures ok ==> Valid() && State().alloc == Turned(old(State()).alloc, i).value
      ensures ok ==> mem == WithHeader(old(mem), host, old(State()).alloc, State().alloc, i)
    {
      hide Wrap, Plus;
      if Wrap(codePtrs[i] as int - pages[i]) as int + 14 * 4 <= PAGE_SIZE { return true; }
      if count + 1 >= PAGE_COUNT { return false; }
      PlusSmall(pages[i], PAGE_SIZE);
      pages := pages[i := Plus(pages[i], PAGE_SIZE)];
      PlusPlus(old(pages[i]), PAGE_SIZE, 8);
      count := count + 1;
      InitLinkpage(i);
      return true;
    }

    /** `segv_sigaction`; the process is gone unless it resumes. */
    method SegvSigaction(pc: Word, addr: Word) returns (exit: Exit)
      requires Valid()
      modifies this`mem, this`pages, this`codePtrs, this`count
      ensures exit == Resume ==> Valid()
      ensures match Segv(host, selfStart, selfEnd, old(State()), pc, addr)
              case Died(e) => exit == e
              case Patched(s) => exit == Resume && State() == s
    {
      hide WithTrampoline, MakeJmp, MakeOffset12, Wrap, Near, Turned;
      if selfStart <= pc <= selfEnd || pc / REGION_SIZE == pages[0] / REGION_SIZE
         || addr / 0x20_0000 != 0x7f00_0000 / 0x20_0000 {
        return RealCrash;
      }
      var i := FindNear(pc);
      if i == 2 { return Fatal; }
      assert pages[i] != 0 by { ChosenIsThere(State().alloc, pc); }
      var ok := Generate(i, pc);
      if !ok { return Fatal; }
      ok := Turn(i);
      if !ok { return Fatal; }
      return Resume;
    }
  }

  lemma ChosenIsThere(a: Alloc, pc: Word)
    requires |a.regions| == 2 && Chosen(a, pc) < 2
    ensures a.regions[Chosen(a, pc)].Some?
  {
  }
}
