/**
 What every run of the patcher keeps: how far the allocator can go, where trampolines lie, and that no fault
 disturbs the trampolines of earlier ones.
 */
module Layout {
  import opened Words
  import opened IoOps
  import opened Arm
  import opened Trampoline
  import opened Linkpages

  // ----- how far the allocator goes

  /** Where a region stands after n entries: PER_PAGE to a page, starting behind the page header. */
  function RegionAfter(base: nat, n: nat): (r: Region)
    requires base + REGION_SIZE <= TOP && n / PER_PAGE < PAGE_COUNT
    ensures base <= r.page && r.page as int + PAGE_SIZE <= base + REGION_SIZE
    ensures r.page as int + 8 <= r.next && r.next as int + ENTRY_SIZE + 20 <= r.page as int + PAGE_SIZE
  {
    var page := base + PAGE_SIZE * (n / PER_PAGE);
    Region(page, page + 8 + ENTRY_SIZE * (n % PER_PAGE))
  }

  /** Whether the pages that n0 and n1 entries fill leave one of the four to go on in. */
  predicate Fits(n0: nat, n1: nat) {
    n0 / PER_PAGE + n1 / PER_PAGE < PAGE_COUNT
  }

  lemma FitsFewer(m0: nat, m1: nat, k0: nat, k1: nat)
    requires Fits(m0 + k0, m1 + k1)
    ensures Fits(m0, m1)
  {
  }

  /** Where `emu_init` put the regions; None for a region that was not wanted. */
  datatype Bases = Bases(first: Option<nat>, second: Option<nat>) {
    predicate Valid() {
      && (first.Some? ==> first.value + REGION_SIZE <= TOP)
      && (second.Some? ==> second.value + REGION_SIZE <= TOP)
    }

    function Base(i: nat): nat
      requires Wanted(this, i)
    {
      if i == 0 then first.value else second.value
    }
  }

  predicate Wanted(b: Bases, i: nat) {
    i < 2 && if i == 0 then b.first.Some? else b.second.Some?
  }

  function AllocAfter(b: Bases, n0: nat, n1: nat): Alloc
    requires b.Valid() && Fits(n0, n1)
  {
    Alloc([if b.first.Some? then Some(RegionAfter(b.first.value, n0)) else None,
           if b.second.Some? then Some(RegionAfter(b.second.value, n1)) else None],
          n0 / PER_PAGE + n1 / PER_PAGE)
  }

  /** One more entry in a region: the next slot of the page, or the start of the next page. */
  lemma NextRegion(base: nat, n: nat)
    requires base + REGION_SIZE <= TOP && n / PER_PAGE < PAGE_COUNT
    ensures var r := RegionAfter(base, n);
      && var next := Plus(r.next, ENTRY_SIZE); var full := Wrap(next as int - r.page) as int + 14 * 4 > PAGE_SIZE;
      && (n + 1) / PER_PAGE == n / PER_PAGE + (if full then 1 else 0)
      && (!full ==> RegionAfter(base, n + 1) == Region(r.page, next))
      && (full && (n + 1) / PER_PAGE < PAGE_COUNT ==>
            RegionAfter(base, n + 1) == Region(Plus(r.page, PAGE_SIZE), Plus(r.page, PAGE_SIZE + 8)))
  {
    NextEntry(n);
    var r := RegionAfter(base, n);
    PlusSmall(r.next, ENTRY_SIZE);
    PlusSmall(r.page, PAGE_SIZE);
    PlusSmall(r.page, PAGE_SIZE + 8);
    assert Wrap(Plus(r.next, ENTRY_SIZE) as int - r.page) == 8 + ENTRY_SIZE * (n % PER_PAGE + 1);
    hide Plus, Wrap;
  }

  lemma NextEntry(n: nat)
    ensures if n % PER_PAGE == PER_PAGE - 1
            then (n + 1) / PER_PAGE == n / PER_PAGE + 1 && (n + 1) % PER_PAGE == 0
            else (n + 1) / PER_PAGE == n / PER_PAGE && (n + 1) % PER_PAGE == n % PER_PAGE + 1
  {
  }

  /** Taking an entry counts it in its region, and fails exactly when the two regions have filled four pages. */
  lemma TakenCounts(b: Bases, n0: nat, n1: nat, i: nat)
    requires b.Valid() && Fits(n0, n1) && Wanted(b, i)
    ensures var m0, m1 := if i == 0 then n0 + 1 else n0, if i == 1 then n1 + 1 else n1;
      Taken(AllocAfter(b, n0, n1), i) == if Fits(m0, m1) then Some(AllocAfter(b, m0, m1)) else None
  {
    hide RegionAfter, Plus, Wrap;
    var m0, m1 := if i == 0 then n0 + 1 else n0, if i == 1 then n1 + 1 else n1;
    NextRegion(b.Base(i), if i == 0 then n0 else n1);
    var taken := Taken(AllocAfter(b, n0, n1), i);
    if taken.Some? {
      assert taken.value.regions[i] == AllocAfter(b, m0, m1).regions[i];
      assert taken.value.regions == AllocAfter(b, m0, m1).regions;
    }
  }

  predicate Available(a: Alloc, i: nat) {
    i < |a.regions| && a.regions[i].Some?
  }

  /** Entries taken one after the other from the regions a run chooses. */
  function TakenAll(a: Alloc, choices: seq<nat>): Option<Alloc>
    decreases |choices|
  {
    if choices == [] then Some(a)
    else if !Available(a, choices[0]) then None
    else match Taken(a, choices[0])
      case None => None
      case Some(a') => TakenAll(a', choices[1..])
  }

  function Count(choices: seq<nat>, i: nat): nat {
    if choices == [] then 0 else (if choices[0] == i then 1 else 0) + Count(choices[1..], i)
  }

  /** Every run: it goes on exactly as long as the two regions together have not filled four pages of 113 entries. */
  lemma {:induction false} AllocatorBudget(b: Bases, n0: nat, n1: nat, choices: seq<nat>)
    requires b.Valid() && Fits(n0, n1)
    requires forall k | 0 <= k < |choices| :: Wanted(b, choices[k])
    ensures var m0, m1 := n0 + Count(choices, 0), n1 + Count(choices, 1);
      TakenAll(AllocAfter(b, n0, n1), choices)
        == if Fits(m0, m1) then Some(AllocAfter(b, m0, m1)) else None
    decreases |choices|
  {
    hide Fits, AllocAfter, Taken;
    if choices != [] {
      var i, rest := choices[0], choices[1..];
      var m0, m1 := if i == 0 then n0 + 1 else n0, if i == 1 then n1 + 1 else n1;
      WantedAvailable(b, n0, n1, i);
      TakenCounts(b, n0, n1, i);
      if Fits(m0, m1) {
        AllocatorBudget(b, m0, m1, rest);
      } else if Fits(m0 + Count(rest, 0), m1 + Count(rest, 1)) {
        FitsFewer(m0, m1, Count(rest, 0), Count(rest, 1));
      }
    }
  }

  lemma WantedAvailable(b: Bases, n0: nat, n1: nat, i: nat)
    requires b.Valid() && Fits(n0, n1) && Wanted(b, i)
    ensures Available(AllocAfter(b, n0, n1), i)
  {
  }

  /** A single region completes 451 patches, and no run completes another one. */
  lemma SingleRegionBudget(base: nat, choices: seq<nat>)
    requires base + REGION_SIZE <= TOP && forall k | 0 <= k < |choices| :: choices[k] == 0
    ensures TakenAll(AllocAfter(Bases(Some(base), None), 0, 0), choices).Some? <==> |choices| <= 451
  {
    CountAll(choices);
    AllocatorBudget(Bases(Some(base), None), 0, 0, choices);
  }

  lemma {:induction false} CountAll(choices: seq<nat>)
    requires forall k | 0 <= k < |choices| :: choices[k] == 0
    ensures Count(choices, 0) == |choices| && Count(choices, 1) == 0
  {
    if choices != [] {
      CountAll(choices[1..]);
    }
  }

  // ----- the start

  /** A region ends at most a page below the program, page-aligned. */
  lemma RegionBelow(bottom: Word)
    requires REGION_SIZE + PAGE_SIZE <= bottom
    ensures var base := RegionBase(bottom);
      && 0 < base && base % PAGE_SIZE == 0
      && base as int + REGION_SIZE <= bottom < base as int + REGION_SIZE + PAGE_SIZE
  {
  }

  function BaseOrNull(base: Option<nat>): Word
    requires base.Some? ==> base.value <= TOP
  {
    if base.Some? then base.value else 0
  }

  /** The process as `emu_init` leaves it. */
  function Initial(plan: Plan, m: Mem): Patcher
    requires plan.bases.Valid()
  {
    Patcher(WithFirstHeaders(m, plan.host, BaseOrNull(plan.bases.first), BaseOrNull(plan.bases.second)),
            AllocAfter(plan.bases, 0, 0))
  }

  /** What `emu_init` sets up is consistent, with nothing placed yet. */
  lemma InitialConsistent(plan: Plan, m: Mem)
    requires plan.Valid() && StubAt(m, plan.host)
    ensures Consistent(plan, Initial(plan, m), {}, 0, 0)
  {
    hide MakeJmp, Aligned, Wrap;
    var m', stub := Initial(plan, m).mem, plan.host.stub;
    assert Wanted(plan.bases, 0) ==> Plus(plan.bases.Base(0), 4) == plan.bases.Base(0) + 4 by {
      if Wanted(plan.bases, 0) { PlusSmall(plan.bases.Base(0), 4); }
    }
    assert Wanted(plan.bases, 1) ==> Plus(plan.bases.Base(1), 4) == plan.bases.Base(1) + 4 by {
      if Wanted(plan.bases, 1) { PlusSmall(plan.bases.Base(1), 4); }
    }
    hide Plus;
    forall a | stub <= a < stub as int + 60 ensures At(m', a) == At(m, a) {
    }
    WordsStay(m, m', stub, StubWords(MakeJmp(Plus(stub, 36), plan.host.entry, true).value));
  }

  // ----- what the encoders need

  /** The load of the handler's address never leaves its page's reach. */
  lemma LoadInReach(p: Place)
    requires p.Valid()
    ensures p.Load().Some?
  {
    hide Or, Wrap, Signed;
    PlaceAligned(p);
    var n := p.page as int + 4 - (p.c as int + 24);
    PlusSmall(Plus(p.c, 24), n);
    DistanceOfPlus(Plus(p.c, 24), n);
  }

  /** The outgoing branch is in reach whenever the search accepted the region. */
  lemma OutInReach(p: Place)
    ensures p.Out().Some? <==> -0x80_0000 <= Tested(p.c, p.site) <= 0x7f_ffff
  {
  }

  /** The way back, which nothing tests, is 9 words longer: it fails exactly beyond 0x7ffff7 words. */
  lemma BackInReach(p: Place)
    requires p.Valid() && p.Out().Some?
    ensures p.Back().Some? <==> Tested(p.c, p.site) <= 0x7f_fff7
    ensures p.c < p.site && p.site as int - p.c < 0x8000_0000 ==> p.Back().Some?
  {
    hide Wrap, Signed, Plus, MakeJmp, Aligned;
    PlaceAligned(p);
    JmpExists(p.site, p.Code());
    JmpExists(Plus(p.c, 32), Plus(p.site, 4));
    AlignedDistance(p.site, p.Code());
    OppositeDistance(p.site, p.Code());
    if p.c < p.site && p.site as int - p.c < 0x8000_0000 {
      SignedWrap(p.Code() as int - p.site);
    }
    BackDistance(Signed(Wrap(p.Code() as int - p.site)), Signed(Wrap(Plus(p.site, 4) as int - Plus(p.c, 32))));
  }

  lemma JmpExists(pc: Word, target: Word)
    ensures MakeJmp(pc, target, false).Some? <==> -0x80_0000 <= Signed(Wrap(target as int - pc)) / 4 - 2 <= 0x7f_ffff
  {
    hide Wrap, Signed, JmpWord;
  }

  lemma BackDistance(there: int, back: int)
    requires there % 4 == 0 && back == -there - 20
    ensures back / 4 == -(there / 4) - 5
  {
  }

  lemma OppositeDistance(a: Word, b: Word)
    requires -0x4000_0000 <= Signed(Wrap(b as int - a)) < 0x4000_0000
    ensures Signed(Wrap(a as int - b - 20)) == -Signed(Wrap(b as int - a)) - 20
  {
  }

  // ----- what the memory holds

  /** The words written are there, and nothing else changed. */
  lemma {:induction false} WordsWritten(m: Mem, at: Word, words: seq<Word>)
    requires Aligned(at) && at as int + 4 * |words| < TOP + 0x1000
    ensures WordsAt(WithWords(m, at, words), at, words)
    ensures forall a | a < at || at as int + 4 * |words| <= a :: At(WithWords(m, at, words), a) == At(m, a)
    decreases |words|
  {
    if words != [] {
      var m1 := m[at as int := words[0]];
      AlignedStep(at, 1);
      PlusSmall(at, 4);
      WordsWritten(m1, Plus(at, 4), words[1..]);
      hide Plus;
      var m' := WithWords(m1, Plus(at, 4), words[1..]);
      forall i | 0 <= i < |words| ensures At(m', at as int + 4 * i) == words[i] {
        if i > 0 {
          assert At(m', Plus(at, 4) as int + 4 * (i - 1)) == words[1..][i - 1];
        }
      }
    }
  }

  /** A new trampoline is complete, and only its own words and the fault site were written. */
  lemma TrampolineWritten(m: Mem, host: Host, p: Place)
    requires p.Valid() && p.Load().Some? && p.Back().Some? && p.Out().Some?
    requires At(m, p.page as int + 4) == host.stub && Clear(p.page, p.page as int + PAGE_SIZE, p.site, 4)
    ensures TrampolineAt(WithTrampoline(m, p), host, p)
    ensures forall a | a != p.site && (a < p.c || p.c as int + ENTRY_SIZE <= a) ::
              At(WithTrampoline(m, p), a) == At(m, a)
  {
    hide MakeJmp, MakeOffset12, Or, WithWords, WordsAt;
    PlaceAligned(p);
    PlusSmall(p.c, 4);
    var m1 := m[p.c as int := p.site][Plus(p.c, 4) as int := p.op][p.site as int := p.Out().value];
    WordsWritten(m1, p.Code(), TrampolineWords(p.LoadWord(), p.Back().value));
  }

  /** The two memories agree on everything this trampoline consists of. */
  ghost predicate SamePlace(m: Mem, m': Mem, p: Place) {
    && At(m', p.page as int + 4) == At(m, p.page as int + 4) && At(m', p.site) == At(m, p.site)
    && forall a | p.c <= a < p.c as int + ENTRY_SIZE :: At(m', a) == At(m, a)
  }

  lemma TrampolineKept(m: Mem, m': Mem, host: Host, p: Place)
    requires TrampolineAt(m, host, p) && SamePlace(m, m', p)
    ensures TrampolineAt(m', host, p)
  {
    hide MakeJmp, MakeOffset12, Or, At;
    var words := TrampolineWords(p.LoadWord(), p.Back().value);
    WordsStay(m, m', p.c as int + 8, words);
  }

  lemma WordsStay(m: Mem, m': Mem, base: int, words: seq<Word>)
    requires WordsAt(m, base, words) && forall a | base <= a < base + 4 * |words| :: At(m', a) == At(m, a)
    ensures WordsAt(m', base, words)
  {
    hide At;
  }

  // ----- every run

  /** Where things lie: page-aligned regions apart from each other, and the stub and the program outside of them. */
  datatype Plan = Plan(host: Host, bases: Bases) {
    predicate Valid() {
      && bases.Valid() && Aligned(host.stub) && host.stub < TOP
      && (forall i | 0 <= i < 2 && Wanted(bases, i) :: bases.Base(i) % PAGE_SIZE == 0 && bases.Base(i) > 0)
      && (Wanted(bases, 0) && Wanted(bases, 1) ==>
            Clear(bases.Base(0), bases.Base(0) + REGION_SIZE, bases.Base(1), REGION_SIZE))
      && OutsideRegions(host.stub, 60) && OutsideRegions(host.entry, 4)
    }

    predicate OutsideRegions(at: int, size: nat) {
      forall i | 0 <= i < 2 && Wanted(bases, i) :: Clear(bases.Base(i), bases.Base(i) + REGION_SIZE, at, size)
    }

    /** Addresses where the program's instructions may be. */
    predicate Guest(at: int) {
      && 0 <= at < TOP && Aligned(at) && OutsideRegions(at, 4)
      && Clear(host.stub, host.stub as int + 60, at, 4) && at != host.entry
    }

    /** A trampoline lies in the part of region i that has been handed out. */
    predicate Handed(a: Alloc, i: nat, p: Place) {
      && Available(a, i) && Wanted(bases, i)
      && bases.Base(i) <= p.page && p.page as int + 8 <= p.c
      && p.c as int + ENTRY_SIZE <= a.regions[i].value.next <= bases.Base(i) + REGION_SIZE
    }
  }

  /** The page that region i is filling knows the handler. */
  ghost predicate Headed(plan: Plan, s: Patcher, i: nat) {
    Available(s.alloc, i) ==> At(s.mem, s.alloc.regions[i].value.page as int + 4) == plan.host.stub
  }

  ghost predicate Standing(plan: Plan, s: Patcher, p: Place) {
    && TrampolineAt(s.mem, plan.host, p) && plan.Guest(p.site)
    && (plan.Handed(s.alloc, 0, p) || plan.Handed(s.alloc, 1, p))
  }

  predicate Apart(p: Place, q: Place) {
    p.site != q.site && Clear(p.c, p.c as int + ENTRY_SIZE, q.c, ENTRY_SIZE)
  }

  /** The state after n0 and n1 patches in the two regions; placed are the trampolines made so far. */
  ghost predicate Consistent(plan: Plan, s: Patcher, placed: set<Place>, n0: nat, n1: nat) {
    && plan.Valid() && Fits(n0, n1) && s.alloc == AllocAfter(plan.bases, n0, n1)
    && StubAt(s.mem, plan.host) && Headed(plan, s, 0) && Headed(plan, s, 1)
    && (forall p | p in placed :: Standing(plan, s, p))
    && (forall p, q | p in placed && q in placed && p != q :: Apart(p, q))
  }

  /** The two memories differ at most at the fault site and in the part of region i from c on. */
  ghost predicate Local(m: Mem, m': Mem, site: int, c: int, end: int) {
    forall a | a != site && !(c <= a < end) :: At(m', a) == At(m, a)
  }

  lemma PlaceFits(plan: Plan, n0: nat, n1: nat, i: nat)
    requires plan.Valid() && Fits(n0, n1) && Wanted(plan.bases, i)
    ensures var r := AllocAfter(plan.bases, n0, n1).regions[i].value;
      && Aligned(r.page) && Aligned(r.next) && r.page as int + 8 <= r.next
      && r.next as int + ENTRY_SIZE <= r.page as int + PAGE_SIZE
      && plan.bases.Base(i) <= r.page && r.page as int + PAGE_SIZE <= plan.bases.Base(i) + REGION_SIZE <= TOP
      && r.page > 0
  {
    var base, n := plan.bases.Base(i), if i == 0 then n0 else n1;
    assert base % PAGE_SIZE == 0;
    SlotAligned(base, n / PER_PAGE, n % PER_PAGE);
  }

  lemma SlotAligned(base: nat, k: nat, j: nat)
    requires base % PAGE_SIZE == 0
    ensures Aligned(base + PAGE_SIZE * k) && Aligned(base + PAGE_SIZE * k + 8 + ENTRY_SIZE * j)
  {
    assert base == 4 * (base / PAGE_SIZE * 0x400);
    AlignedStep(base, 0x400 * k);
    AlignedStep(base + PAGE_SIZE * k, 2 + 9 * j);
    hide Aligned;
  }

  /** Where region i stands after one more entry, given that it stood at r. */
  predicate Moved(r: Region, r': Region, turned: bool) {
    if turned then r' == Region(Plus(r.page, PAGE_SIZE), Plus(r.page, PAGE_SIZE + 8))
    else r' == Region(r.page, Plus(r.next, ENTRY_SIZE))
  }

  lemma TakenMoves(plan: Plan, n0: nat, n1: nat, i: nat, a: Alloc)
    requires plan.Valid() && Fits(n0, n1) && Wanted(plan.bases, i)
    requires Taken(AllocAfter(plan.bases, n0, n1), i) == Some(a)
    ensures var before := AllocAfter(plan.bases, n0, n1);
      && Available(a, i) && |a.regions| == 2 && a.regions[1 - i] == before.regions[1 - i]
      && Moved(before.regions[i].value, a.regions[i].value, a.count != before.count)
      && a.regions[i].value.page as int + PAGE_SIZE <= plan.bases.Base(i) + REGION_SIZE
      && a.regions[i].value.next <= plan.bases.Base(i) + REGION_SIZE
  {
    var m0, m1 := if i == 0 then n0 + 1 else n0, if i == 1 then n1 + 1 else n1;
    TakenCounts(plan.bases, n0, n1, i);
    PlaceFits(plan, m0, m1, i);
    NextRegion(plan.bases.Base(i), if i == 0 then n0 else n1);
    hide Wrap, Plus, RegionAfter, Taken;
  }

  /** The header of the next page lies behind everything the new trampoline consists of. */
  lemma HeaderAdded(plan: Plan, m: Mem, p: Place, before: Alloc, a: Alloc, i: nat)
    requires TrampolineAt(m, plan.host, p) && Wanted(plan.bases, i) && plan.OutsideRegions(p.site, 4)
    requires Available(a, i) && plan.bases.Base(i) <= p.page && plan.bases.Base(i) + REGION_SIZE <= TOP
    requires Moved(Region(p.page, p.c), a.regions[i].value, a.count != before.count)
    requires a.regions[i].value.page as int + PAGE_SIZE <= plan.bases.Base(i) + REGION_SIZE
    ensures var m' := WithHeader(m, plan.host, before, a, i);
      && TrampolineAt(m', plan.host, p) && At(m', a.regions[i].value.page as int + 4) == plan.host.stub
      && Local(m, m', p.site, p.c, plan.bases.Base(i) + REGION_SIZE)
      && p.c as int + ENTRY_SIZE <= a.regions[i].value.next
  {
    hide MakeJmp, MakeOffset12, Or, WordsAt, Wrap;
    PlusSmall(p.page, PAGE_SIZE);
    PlusSmall(p.page, PAGE_SIZE + 8);
    PlusSmall(p.c, ENTRY_SIZE);
    PlusSmall(a.regions[i].value.page, 4);
    var m' := WithHeader(m, plan.host, before, a, i);
    assert SamePlace(m, m', p) by { hide Plus; }
    TrampolineKept(m, m', plan.host, p);
    hide Plus;
  }

  /** What a patch in region i does to memory: a complete trampoline, a header for the next page, nothing else. */
  lemma PatchWrites(plan: Plan, s: Patcher, n0: nat, n1: nat, i: nat, p: Place, a: Alloc)
    requires plan.Valid() && Fits(n0, n1) && s.alloc == AllocAfter(plan.bases, n0, n1) && Wanted(plan.bases, i)
    requires Headed(plan, s, i) && p == NewPlace(s, i, p.site) && plan.Guest(p.site)
    requires p.Out().Some? && p.Back().Some? && Taken(s.alloc, i) == Some(a)
    ensures p.Valid() && p.Load().Some? && Available(a, i)
    ensures var m := WithHeader(WithTrampoline(s.mem, p), plan.host, s.alloc, a, i);
      && TrampolineAt(m, plan.host, p) && plan.Handed(a, i, p)
      && At(m, a.regions[i].value.page as int + 4) == plan.host.stub
      && Local(s.mem, m, p.site, p.c, plan.bases.Base(i) + REGION_SIZE)
  {
    hide WithTrampoline, MakeJmp, MakeOffset12, AllocAfter, TrampolineAt, RegionAfter, Taken, Wrap, Plus;
    hide WithHeader, At;
    PlaceFits(plan, n0, n1, i);
    WantedAvailable(plan.bases, n0, n1, i);
    TakenMoves(plan, n0, n1, i, a);
    LoadInReach(p);
    TrampolineWritten(s.mem, plan.host, p);
    HeaderAdded(plan, WithTrampoline(s.mem, p), p, s.alloc, a, i);
  }

  /** An earlier trampoline is out of the way of a patch in region i. */
  lemma StandingKept(plan: Plan, s: Patcher, s': Patcher, i: nat, p: Place, q: Place)
    requires plan.Valid() && Wanted(plan.bases, i) && Available(s.alloc, i)
    requires s.alloc.regions[i].value == Region(p.page, p.c) && p.site != q.site && plan.Guest(p.site)
    requires plan.bases.Base(i) <= p.c
    requires Standing(plan, s, q) && Local(s.mem, s'.mem, p.site, p.c, plan.bases.Base(i) + REGION_SIZE)
    requires |s'.alloc.regions| == |s.alloc.regions| == 2 && Available(s'.alloc, i)
    requires s'.alloc.regions[1 - i] == s.alloc.regions[1 - i]
    requires p.c as int + ENTRY_SIZE <= s'.alloc.regions[i].value.next <= plan.bases.Base(i) + REGION_SIZE
    ensures Standing(plan, s', q) && Clear(p.c, p.c as int + ENTRY_SIZE, q.c, ENTRY_SIZE)
  {
    hide TrampolineAt, At, Aligned;
    var j := if plan.Handed(s.alloc, 0, q) then 0 else 1;
    assert plan.Handed(s.alloc, j, q);
    assert Clear(p.c, plan.bases.Base(i) + REGION_SIZE, q.page, q.c as int + ENTRY_SIZE - q.page);
    assert SamePlace(s.mem, s'.mem, q);
    TrampolineKept(s.mem, s'.mem, plan.host, q);
    assert plan.Handed(s'.alloc, j, q);
  }

  /** Who may fault: an instruction of the program that has not been patched yet. */
  ghost predicate Fresh(plan: Plan, placed: set<Place>, pc: Word) {
    plan.Guest(pc) && forall p | p in placed :: p.site != pc
  }

  /**
   One more fault keeps everything: the new trampoline holds the old word and address of its site, which branches
   to it, and no earlier trampoline, branch or header is disturbed.
   */
  lemma PatchKeeps(plan: Plan, selfStart: Word, selfEnd: Word, s: Patcher, placed: set<Place>, n0: nat, n1: nat,
                   pc: Word, addr: Word, s': Patcher)
    requires Consistent(plan, s, placed, n0, n1) && Fresh(plan, placed, pc)
    requires Segv(plan.host, selfStart, selfEnd, s, pc, addr) == Patched(s')
    ensures var i := Chosen(s.alloc, pc); var p := NewPlace(s, i, pc);
      && i < 2 && p.site == pc && p.op == At(s.mem, pc) && p !in placed && plan.Handed(s'.alloc, i, p)
      && Consistent(plan, s', placed + {p}, if i == 0 then n0 + 1 else n0, if i == 1 then n1 + 1 else n1)
      && Local(s.mem, s'.mem, pc, p.c, plan.bases.Base(i) + REGION_SIZE)
  {
    hide TrampolineAt, WithTrampoline, WithHeader, Taken, At, MakeJmp, MakeOffset12, RegionAfter, Foreign, Near;
    var i := Chosen(s.alloc, pc);
    ChosenIsThere(s.alloc, pc);
    var p, a := NewPlace(s, i, pc), s'.alloc;
    PatchWrites(plan, s, n0, n1, i, p, a);
    TakenMoves(plan, n0, n1, i, a);
    TakenCounts(plan.bases, n0, n1, i);
    PlaceFits(plan, n0, n1, i);
    var end := plan.bases.Base(i) + REGION_SIZE;
    hide Plan.Handed, Plan.Guest, AllocAfter, Moved;
    forall q | q in placed ensures Standing(plan, s', q) && Apart(p, q) && Apart(q, p) {
      StandingKept(plan, s, s', i, p, q);
    }
    StubKept(plan, s.mem, s'.mem, pc, p.c, i);
    OtherHeader(plan, s, s', n0, n1, i, p);
  }

  lemma StubKept(plan: Plan, m: Mem, m': Mem, site: Word, c: Word, i: nat)
    requires plan.Valid() && Wanted(plan.bases, i) && plan.Guest(site) && plan.bases.Base(i) <= c
    requires StubAt(m, plan.host) && Local(m, m', site, c, plan.bases.Base(i) + REGION_SIZE)
    ensures StubAt(m', plan.host)
  {
    hide At, MakeJmp, Aligned;
    WordsStay(m, m', plan.host.stub, StubWords(MakeJmp(Plus(plan.host.stub, 36), plan.host.entry, true).value));
  }

  lemma OtherHeader(plan: Plan, s: Patcher, s': Patcher, n0: nat, n1: nat, i: nat, p: Place)
    requires plan.Valid() && Fits(n0, n1) && s.alloc == AllocAfter(plan.bases, n0, n1) && Wanted(plan.bases, i)
    requires Headed(plan, s, 1 - i) && plan.Guest(p.site) && plan.bases.Base(i) <= p.c
    requires |s'.alloc.regions| == 2 && s'.alloc.regions[1 - i] == s.alloc.regions[1 - i]
    requires Local(s.mem, s'.mem, p.site, p.c, plan.bases.Base(i) + REGION_SIZE)
    ensures Headed(plan, s', 1 - i)
  {
    hide At, Aligned, RegionAfter;
    if Available(s.alloc, 1 - i) {
      PlaceFits(plan, n0, n1, 1 - i);
    }
  }

  /**
   When a fault is survived: it is the program's on a device address, a region is near, the way back is no longer than
   the encoder allows, and the two regions together have not filled their fourth page.
   */
  lemma SurvivedExactly(plan: Plan, selfStart: Word, selfEnd: Word, s: Patcher, placed: set<Place>, n0: nat, n1: nat,
                        pc: Word, addr: Word)
    requires Consistent(plan, s, placed, n0, n1) && Fresh(plan, placed, pc)
    ensures var i := Chosen(s.alloc, pc);
      Segv(plan.host, selfStart, selfEnd, s, pc, addr).Patched? <==>
        && (pc < selfStart || selfEnd < pc) && !InFirstBlock(s.alloc, pc) && 0x7f00_0000 <= addr <= 0x7f1f_ffff
        && i < 2
        && Tested(s.alloc.regions[i].value.next, pc) <= 0x7f_fff7
        && Fits(if i == 0 then n0 + 1 else n0, if i == 1 then n1 + 1 else n1)
  {
    hide WithTrampoline, WithHeader, MakeJmp, MakeOffset12, RegionAfter, Foreign, Taken, Fits, At, Tested;
    hide InFirstBlock;
    var i := Chosen(s.alloc, pc);
    ForeignExactly(selfStart, selfEnd, s.alloc, pc, addr);
    if i < 2 {
      ChosenIsThere(s.alloc, pc);
      var p := NewPlace(s, i, pc);
      assert Wanted(plan.bases, i) by { OnlyWanted(plan, n0, n1, i); }
      PlaceFits(plan, n0, n1, i);
      TakenCounts(plan.bases, n0, n1, i);
      OutInReach(p);
      BackInReach(p);
      LoadInReach(p);
    }
  }

  lemma OnlyWanted(plan: Plan, n0: nat, n1: nat, i: nat)
    requires plan.Valid() && Fits(n0, n1) && Available(AllocAfter(plan.bases, n0, n1), i)
    ensures Wanted(plan.bases, i)
  {
  }

  /** Any memory can hold the handler's stub. */
  lemma StubWritten(m: Mem, host: Host)
    requires Aligned(host.stub) && host.stub < TOP && Aligned(host.entry)
    requires !(host.stub <= host.entry < host.stub as int + 60)
    requires MakeJmp(Plus(host.stub, 36), host.entry, true).Some?
    ensures StubAt(WithWords(m, host.stub, StubWords(MakeJmp(Plus(host.stub, 36), host.entry, true).value)), host)
  {
    hide MakeJmp, WithWords, WordsAt;
    WordsWritten(m, host.stub, StubWords(MakeJmp(Plus(host.stub, 36), host.entry, true).value));
  }

  /**
   Such faults exist: of a program at 0x30000, with a region below it, on every address of the two megabytes that the
   registers are in.
   */
  lemma FaultIsSurvived(m: Mem, addr: Word) returns (plan: Plan, s: Patcher)
    requires 0x7f00_0000 <= addr < 0x7f20_0000
    ensures Consistent(plan, s, {}, 0, 0) && Fresh(plan, {}, 0x3_0000)
    ensures Segv(plan.host, 0x1_0000, 0x1_1000, s, 0x3_0000, addr).Patched?
  {
    hide StubAt, StubWords, WithWords, Consistent, Segv, Initial, Plan.Valid, Foreign, Chosen, Tested, MakeJmp, Fresh;
    var host := Host(0x1_0000, 0x1_0100);
    plan := SmallPlan();
    SmallPlanIsValid();
    StubWritten(m, host);
    var stubbed := WithWords(m, host.stub, StubWords(MakeJmp(Plus(host.stub, 36), host.entry, true).value));
    s := Initial(plan, stubbed);
    InitialConsistent(plan, stubbed);
    SmallPlanIsNear(stubbed);
    SurvivedExactly(plan, 0x1_0000, 0x1_1000, s, {}, 0, 0, 0x3_0000, addr);
  }

  function SmallPlan(): Plan {
    Plan(Host(0x1_0000, 0x1_0100), Bases(Some(0x2_c000), None))
  }

  lemma SmallPlanIsValid()
    ensures SmallPlan().Valid() && Fresh(SmallPlan(), {}, 0x3_0000)
    ensures Aligned(0x1_0000) && Aligned(0x1_0100)
    ensures MakeJmp(Plus(0x1_0000, 36), 0x1_0100, true).Some?
  {
    assert Signed(Wrap(0x1_0100 - 0x1_0024)) == 220;
    hide JmpWord;
  }

  lemma SmallPlanIsNear(m: Mem)
    ensures var a := Initial(SmallPlan(), m).alloc;
      && !InFirstBlock(a, 0x3_0000) && Chosen(a, 0x3_0000) == 0
      && Tested(a.regions[0].value.next, 0x3_0000) <= 0x7f_fff7
  {
    hide WithFirstHeaders;
    var a := Initial(SmallPlan(), m).alloc;
    assert a == Alloc([Some(Region(0x2_c000, 0x2_c008)), None], 0);
    assert Signed(Wrap(0x2_c010 - 0x3_0000)) == 0x2_c010 - 0x3_0000;
    assert Tested(0x2_c008, 0x3_0000) == (0x2_c010 - 0x3_0000) / 4 - 2;
  }
}
