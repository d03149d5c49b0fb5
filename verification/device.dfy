/**
 The emulated register windows, `xread*` and `xwrite*`, with the display state behind them: screen address, stride,
 depth, the two palettes and the host palette that `mlc_flip` brings up to date. Every method is specified by a
 function on the value of the whole register state; runs of such steps are reasoned about below.
 */
module Device {
  import opened Words
  import opened IoOps
  import Blitter
  import Clock

  // ----- colours

  /** A palette entry as the host shows it: 8 bits per channel cut down to 5, 6 and 5. */
  function Rgb565(t: bv32): bv16 {
    (((t >> 8) & 0xf800) | ((t >> 5) & 0x07e0) | ((t >> 3) & 0x001f)) as bv16
  }

  function Red(t: bv32): bv32 { (t >> 16) & 0xff }
  function Green(t: bv32): bv32 { (t >> 8) & 0xff }
  function Blue(t: bv32): bv32 { t & 0xff }

  lemma Channels(t: bv32)
    ensures (Rgb565(t) >> 11) as bv32 == Red(t) >> 3
    ensures ((Rgb565(t) >> 5) & 0x3f) as bv32 == Green(t) >> 2
    ensures (Rgb565(t) & 0x1f) as bv32 == Blue(t) >> 3
  {
  }

  /** Entry i of the 32-bit view of a palette that is written in half-words. */
  function Colour(pal: seq<bv16>, i: nat): bv32
    requires 2 * i + 1 < |pal|
  {
    ((pal[2 * i + 1] as bv32) << 16) | (pal[2 * i] as bv32)
  }

  // ----- the register state

  const MMSP2_PALETTE := 1
  const POLLUX_PALETTE := 2

  /** dirty tells which palette the host has not seen yet: none (0) or one of the two above. */
  datatype State = State(
    cntl: Half, adr: Word, oldAdr: Word, index: nat, pal: seq<bv16>, control: Word, mlcpalette: seq<bv16>,
    stride: Word, bpp: nat, dirty: nat, requested: bool, hostPal: seq<bv16>, blit: seq<Word>)
  {
    predicate Valid() {
      && |pal| == 512 && |mlcpalette| == |hostPal| == 256 && |blit| == 16
      && index < 512 && bpp in {4, 8, 16, 24} && dirty < 3
    }
  }

  function AsBits(h: Half): bv16 {
    h as bv16
  }

  function LowHalf(d: Word): bv16 {
    AsBits(d % 0x1_0000)
  }

  predicate VideoWindow(a: Word) { a / 0x10_0000 == 0x7f0 }
  predicate BlitterWindow(a: Word) { a / 0x10_0000 == 0x7f1 && a % 0x1000 < 0x40 }

  function RegisterOf(a: Word): nat { a % 0x1_0000 }

  /** A new screen address; the display is asked to refresh if it differs from the one committed before. */
  function Commit(s: State, adr: Word): State {
    s.(adr := adr, oldAdr := adr, requested := s.requested || adr != s.oldAdr)
  }

  /** One entry through the auto-incremented index. */
  function PaletteData(s: State, d: Word): (t: State)
    requires s.Valid()
    ensures t.Valid()
  {
    s.(pal := s.pal[s.index := LowHalf(d)], index := (s.index + 1) % 512, dirty := MMSP2_PALETTE)
  }

  function After16(s: State, a: Word, d: Word): (t: State)
    requires s.Valid()
    ensures t.Valid()
  {
    if !VideoWindow(a) then s
    else match RegisterOf(a)
      case 0x28da =>
        s.(cntl := Or(d % 0x1_0000, 0xaa) % 0x1_0000,
           bpp := if Field(d, 0x200, 4) == 0 then 4 else 8 * Field(d, 0x200, 4))
      case 0x290c => s.(stride := d)
      case 0x2912 => s.(adr := s.adr / 0x1_0000 * 0x1_0000 + d % 0x1_0000)
      case 0x2914 => Commit(s, d % 0x1_0000 * 0x1_0000 + s.adr % 0x1_0000)
      case 0x2958 => s.(index := d % 512)
      case 0x295a => PaletteData(s, d)
      case _ => s
  }

  predicate StartsBlit(a: Word, d: Word) {
    BlitterWindow(a) && a % 0x1000 == 0x34 && d % 2 == 1
  }

  /** The register file as the blitter reads it. */
  function BlitRegisters(blit: seq<Word>): Blitter.Registers
    requires |blit| == 16
  {
    Blitter.Registers(blit[0], blit[1], blit[2], blit[3], blit[4], blit[5], blit[10], blit[11], blit[12])
  }

  /** A word store, without the blit it may start. */
  function After32(s: State, a: Word, d: Word): (t: State)
    requires s.Valid()
    ensures t.Valid()
  {
    if BlitterWindow(a) then s.(blit := s.blit[a % 0x1000 / 4 := d])
    else if !VideoWindow(a) then s
    else match RegisterOf(a)
      case 0x295a => PaletteData(PaletteData(s, d), d / 0x1_0000)
      case 0x4024 | 0x4058 =>
        s.(control := d, bpp := if !Bit(d, 0x20) then s.bpp else if d / 0x1_0000 == 0x443a then 8 else 16)
      case 0x402c | 0x4060 => s.(stride := d)
      case 0x4038 | 0x406c => Commit(s, d)
      case 0x403c | 0x4070 => s.(mlcpalette := s.mlcpalette[d / 0x100_0000 := LowHalf(d)], dirty := POLLUX_PALETTE)
      case _ => s
  }

  /** A blit started by a store to the run register is one whose memory effect is defined, in a memory of this size. */
  ghost predicate BlitIsDefined(at: Blitter.HostBase, s: State, a: Word, d: Word, size: nat)
    requires s.Valid()
  {
    StartsBlit(a, d) ==>
      var r := BlitRegisters(After32(s, a, d).blit);
      r.Defined(at) && (Blitter.Plan(at, r).Some? ==> Blitter.Fits(Blitter.Plan(at, r).value, size))
  }

  /** What that blit does to host memory, with upper memory mapped at at. */
  ghost function MemoryAfter32(at: Blitter.HostBase, s: State, m: Blitter.Bytes, a: Word, d: Word): Blitter.Bytes
    requires s.Valid() && BlitIsDefined(at, s, a, d, |m|)
  {
    var plan := Blitter.Plan(at, BlitRegisters(After32(s, a, d).blit));
    if StartsBlit(a, d) && plan.Some? then Blitter.Done(m, plan.value) else m
  }

  /** Whether that blit asks for a refresh. */
  predicate BlitRefreshes(at: Blitter.HostBase, s: State, a: Word, d: Word)
    requires s.Valid()
  {
    StartsBlit(a, d) &&
    var r := BlitRegisters(After32(s, a, d).blit);
    Blitter.Plan(at, r).Some? && Blitter.ToScreen(r.Width(), r.Height(), s.adr, r.Target())
  }

  /** The display registers that can be read back in half-words; here the window is only 64 KB wide. */
  function Read16(s: State, a: Word): Option<Half>
    requires s.Valid()
  {
    if a / 0x1_0000 != 0x7f00 then None
    else match RegisterOf(a)
      case 0x28da => Some(s.cntl)
      case 0x290e | 0x2912 => Some(s.adr % 0x1_0000)
      case 0x2910 | 0x2914 => Some(s.adr / 0x1_0000)
      case 0x2958 => Some(s.index)
      case _ => None
  }

  /** The display, clock and blitter registers that can be read as words. */
  function Read32(s: State, now: Clock.Time, a: Word): Option<Word>
    requires s.Valid() && now.Valid()
  {
    if BlitterWindow(a) then Some(if a % 0x1000 == 0x34 then 0 else s.blit[a % 0x1000 / 4])
    else if !VideoWindow(a) then None
    else match RegisterOf(a)
      case 0x0a00 => Some(Clock.Tcount(now))
      case 0x1980 => Some(Clock.Timer3(now))
      case 0x402c | 0x4060 => Some(s.stride)
      case 0x4038 | 0x406c => Some(s.adr)
      case _ => None
  }

  // ----- the display

  /** The host palette that shows the given family's palette. */
  function HostPalette(s: State, family: nat): (p: seq<bv16>)
    requires s.Valid()
    ensures |p| == 256
  {
    if family == MMSP2_PALETTE then Converted(s.pal) else s.mlcpalette
  }

  function Converted(pal: seq<bv16>): (p: seq<bv16>)
    requires |pal| == 512
    ensures |p| == 256
  {
    seq(256, i requires 0 <= i < 256 => Rgb565(Colour(pal, i)))
  }

  /** `mlc_flip` at the depth that is set: the host palette is replaced if it is used and out of date. */
  function AfterFlip(s: State): (t: State)
    requires s.Valid()
    ensures t.Valid()
  {
    if s.bpp > 8 || s.dirty == 0 then s
    else s.(hostPal := HostPalette(s, s.dirty), dirty := 0)
  }

  // ----- runs

  datatype Step = Store16(a: Word, d: Word) | Store32(a: Word, d: Word) | Flip

  function Next(s: State, step: Step): (t: State)
    requires s.Valid()
    ensures t.Valid()
  {
    match step
    case Store16(a, d) => After16(s, a, d)
    case Store32(a, d) => After32(s, a, d)
    case Flip => AfterFlip(s)
  }

  function Run(s: State, steps: seq<Step>): (t: State)
    requires s.Valid()
    ensures t.Valid()
  {
    if steps == [] then s else Next(Run(s, steps[..|steps| - 1]), steps[|steps| - 1])
  }

  /** The palette a step writes to, if any. */
  function Written(step: Step): Option<nat> {
    match step
    case Store16(a, d) => if VideoWindow(a) && RegisterOf(a) == 0x295a then Some(MMSP2_PALETTE) else None
    case Store32(a, d) =>
      if !VideoWindow(a) then None
      else if RegisterOf(a) == 0x295a then Some(MMSP2_PALETTE)
      else if RegisterOf(a) in {0x403c, 0x4070} then Some(POLLUX_PALETTE)
      else None
    case Flip => None
  }

  /** The palette written last in a run; at the start, the first one counts as written. */
  function LastWritten(steps: seq<Step>): nat {
    if steps == [] then MMSP2_PALETTE
    else
      var w := Written(steps[|steps| - 1]);
      if w.Some? then w.value else LastWritten(steps[..|steps| - 1])
  }

  /** The host shows the family written last, or will before the next frame that uses a palette. */
  predicate Coherent(s: State, family: nat)
    requires s.Valid()
  {
    if s.dirty == 0 then s.hostPal == HostPalette(s, family) else s.dirty == family
  }

  lemma CoherentStep(s: State, family: nat, step: Step)
    requires s.Valid() && Coherent(s, family)
    ensures var w := Written(step); Coherent(Next(s, step), if w.Some? then w.value else family)
  {
    hide Converted, Or, LowHalf;
    match step
    case Store16(a, d) => Untouched16(s, a, d);
    case Store32(a, d) => Untouched32(s, a, d);
    case Flip =>
  }

  lemma Untouched16(s: State, a: Word, d: Word)
    requires s.Valid()
    ensures var t := After16(s, a, d);
      && t.hostPal == s.hostPal && t.mlcpalette == s.mlcpalette
      && (if Written(Store16(a, d)).Some? then t.dirty == MMSP2_PALETTE else t.dirty == s.dirty && t.pal == s.pal)
  {
    hide Or, LowHalf;
  }

  lemma Untouched32(s: State, a: Word, d: Word)
    requires s.Valid()
    ensures var t := After32(s, a, d);
      && t.hostPal == s.hostPal
      && (if Written(Store32(a, d)).Some? then t.dirty == Written(Store32(a, d)).value
          else t.dirty == s.dirty && t.pal == s.pal && t.mlcpalette == s.mlcpalette)
  {
    hide LowHalf;
  }

  lemma {:induction false} RunIsCoherent(s: State, steps: seq<Step>)
    requires s.Valid() && s.dirty == MMSP2_PALETTE
    ensures Coherent(Run(s, steps), LastWritten(steps))
  {
    if steps != [] {
      var before := steps[..|steps| - 1];
      RunIsCoherent(s, before);
      hide Coherent, Next, Written;
      CoherentStep(Run(s, before), LastWritten(before), steps[|steps| - 1]);
    }
  }

  /**
   After any run from the initial state, a frame that uses a palette is shown with the host palette equal to the
   conversion of the palette written last, as it is then.
   */
  lemma FrameShowsLastWritten(s: State, steps: seq<Step>)
    requires s.Valid() && s.dirty == MMSP2_PALETTE
    ensures var t := Run(s, steps + [Flip]);
      t.bpp <= 8 ==> t.hostPal == HostPalette(Run(s, steps), LastWritten(steps))
  {
    RunIsCoherent(s, steps);
    assert (steps + [Flip])[..|steps|] == steps;
    hide Converted;
  }

  /** A word store to the data register is two half-word stores, the low half first. */
  lemma WordIsTwoHalves(s: State, a: Word, d: Word)
    requires s.Valid() && VideoWindow(a) && RegisterOf(a) == 0x295a
    ensures After32(s, a, d) == After16(After16(s, a, d % 0x1_0000), a, d / 0x1_0000)
  {
  }

  /** Half-word stores to the data register. */
  function DataStores(a: Word, values: seq<Word>): seq<Step> {
    if values == [] then [] else DataStores(a, values[..|values| - 1]) + [Store16(a, values[|values| - 1])]
  }

  /** How far entry j is from the index, going up and round. */
  function Ahead(index: nat, j: nat): nat
    requires index < 512 && j < 512
  {
    if index <= j then j - index else j + 512 - index
  }

  lemma AheadBy(index: nat, n: nat, j: nat)
    requires index < 512 && n < 512 && j < 512
    ensures j == (index + n) % 512 <==> Ahead(index, j) == n
  {
  }

  /** t holds the values from s's index on, and s's entries elsewhere; its index is behind the last value. */
  predicate Loaded(s: State, values: seq<Word>, t: State)
    requires s.Valid() && t.Valid()
  {
    && t.index == (s.index + |values|) % 512
    && (forall j | 0 <= j < 512 :: t.pal[j] ==
          if Ahead(s.index, j) < |values| then LowHalf(values[Ahead(s.index, j)]) else s.pal[j])
  }

  /** Up to 512 of them fill that many entries from the index on, round the end, and leave the others. */
  lemma {:induction false} PaletteLoad(s: State, a: Word, values: seq<Word>)
    requires s.Valid() && VideoWindow(a) && RegisterOf(a) == 0x295a && |values| <= 512
    ensures Loaded(s, values, Run(s, DataStores(a, values)))
  {
    if values != [] {
      hide *;
      var n := |values| - 1;
      PaletteLoad(s, a, values[..n]);
      OneStoreMore(s, a, values);
      OneEntryMore(s, values, Run(s, DataStores(a, values[..n])));
    } else {
      hide Ahead, LowHalf, VideoWindow, RegisterOf;
    }
  }

  lemma OneEntryMore(s: State, values: seq<Word>, r: State)
    requires s.Valid() && r.Valid() && 0 < |values| <= 512
    requires Loaded(s, values[..|values| - 1], r)
    ensures Loaded(s, values, PaletteData(r, values[|values| - 1]))
  {
    hide LowHalf, Ahead;
    var n := |values| - 1;
    var t := PaletteData(r, values[n]);
    forall j | 0 <= j < 512
      ensures t.pal[j] == if Ahead(s.index, j) <= n then LowHalf(values[Ahead(s.index, j)]) else s.pal[j]
    {
      AheadBy(s.index, n, j);
      hide PaletteData;
    }
    NextIndex(s.index, n);
  }

  lemma NextIndex(i: nat, n: nat)
    ensures ((i + n) % 512 + 1) % 512 == (i + n + 1) % 512
  {
  }

  lemma {:induction false} OneStoreMore(s: State, a: Word, values: seq<Word>)
    requires s.Valid() && VideoWindow(a) && RegisterOf(a) == 0x295a && values != []
    ensures Run(s, DataStores(a, values))
      == PaletteData(Run(s, DataStores(a, values[..|values| - 1])), values[|values| - 1])
  {
    var steps := DataStores(a, values);
    assert steps[..|steps| - 1] == DataStores(a, values[..|values| - 1]);
    hide PaletteData, VideoWindow, RegisterOf;
  }

  // ----- the screen address and the other registers

  /** Writing the two halves commits their value, asking for a refresh exactly if it is new. */
  lemma AddressCommit(s: State, low: Word, high: Word)
    requires s.Valid()
    ensures var t := After16(After16(s, 0x7f00_2912, low), 0x7f00_2914, high);
      && t.adr == t.oldAdr == high % 0x1_0000 * 0x1_0000 + low % 0x1_0000
      && t.requested == (s.requested || t.adr != s.oldAdr)
      && Read16(t, 0x7f00_2912) == Some(low % 0x1_0000) && Read16(t, 0x7f00_2914) == Some(high % 0x1_0000)
      && Read32(t, Clock.Time(0, 0), 0x7f00_4038) == Some(t.adr)
  {
  }

  /** The control register sets the depth, and reads back as written with every second bit of its low byte set. */
  lemma ControlRegister(s: State, d: Word, n: nat)
    requires s.Valid() && n < 16
    ensures var t := After16(s, 0x7f00_28da, d);
      && t == s.(cntl := t.cntl, bpp := [4, 8, 16, 24][Field(d, 0x200, 4)])
      && Read16(t, 0x7f00_28da) == Some(t.cntl)
      && (Bit(t.cntl, Pow2(n)) <==> Bit(d % 0x1_0000, Pow2(n)) || Bit(0xaa, Pow2(n)))
  {
    hide Or, Pow2, Bit;
    Pow2Values();
    OrBelow(d % 0x1_0000, 0xaa, 16);
    OrBit(d % 0x1_0000, 0xaa, n);
  }

  /** What is stored can be read back: strides whole, blitter registers too, but for the one that always says done. */
  lemma ReadsBack(s: State, now: Clock.Time, a: Word, d: Word)
    requires s.Valid() && now.Valid()
    ensures BlitterWindow(a) ==>
      Read32(After32(s, a, d), now, a) == Some(if a % 0x1000 == 0x34 then 0 else d)
    ensures VideoWindow(a) && RegisterOf(a) in {0x402c, 0x4060, 0x4038, 0x406c} ==>
      Read32(After32(s, a, d), now, a) == Some(d)
    ensures Read32(After16(s, 0x7f00_290c, d), now, 0x7f00_402c) == Some(d)
    ensures Read16(After16(s, 0x7f00_2958, d), 0x7f00_2958) == Some(d % 512)
  {
    hide LowHalf, PaletteData;
  }

  /** Over any run, the committed address only changes together with a request. */
  lemma {:induction false} RequestedIfMoved(s: State, steps: seq<Step>)
    requires s.Valid()
    ensures var t := Run(s, steps); t.oldAdr == s.oldAdr || t.requested
  {
    if steps != [] {
      RequestedIfMoved(s, steps[..|steps| - 1]);
      hide Converted, LowHalf, Or, Field;
    }
  }

  /**
   The whole register of a half-word store reaches the device. It tells apart from its low half only in the stride,
   which is not cut to 16 bits, and there exactly if an upper bit is set.
   */
  lemma HalfStoreIsNarrow(s: State, a: Word, d: Word)
    requires s.Valid()
    ensures After16(s, a, d) == After16(s, a, d % 0x1_0000)
      <==> !(VideoWindow(a) && RegisterOf(a) == 0x290c && d >= 0x1_0000)
  {
    ModeBits(d);
    LowHalfOnly(d);
    hide Field, LowHalf, Or, Commit, PaletteData, VideoWindow, RegisterOf;
    if VideoWindow(a) && RegisterOf(a) == 0x290c {
      NarrowStride(s, a, d);
    } else {
      NarrowElsewhere(s, a, d, d % 0x1_0000);
    }
  }

  lemma NarrowStride(s: State, a: Word, d: Word)
    requires s.Valid() && VideoWindow(a) && RegisterOf(a) == 0x290c
    ensures After16(s, a, d) == After16(s, a, d % 0x1_0000) <==> d < 0x1_0000
  {
  }

  lemma NarrowElsewhere(s: State, a: Word, d: Word, e: Word)
    requires s.Valid() && !(VideoWindow(a) && RegisterOf(a) == 0x290c)
    requires d % 0x1_0000 == e % 0x1_0000 && d % 512 == e % 512
    requires Field(d, 0x200, 4) == Field(e, 0x200, 4) && LowHalf(d) == LowHalf(e)
    ensures After16(s, a, d) == After16(s, a, e)
  {
    hide Field, LowHalf, Or, Commit, VideoWindow, RegisterOf;
  }

  lemma ModeBits(d: Word)
    ensures Field(d, 0x200, 4) == Field(d % 0x1_0000, 0x200, 4)
    ensures d % 512 == d % 0x1_0000 % 512
  {
    var q, r := d / 0x1_0000, d % 0x1_0000;
    DivUnique(d, 512, q * 128 + r / 512, r % 512);
    DivUnique(d / 512, 4, q * 32 + r / 512 / 4, r / 512 % 4);
  }

  lemma LowHalfOnly(d: Word)
    ensures d % 0x1_0000 % 0x1_0000 == d % 0x1_0000
    ensures LowHalf(d) == LowHalf(d % 0x1_0000)
  {
    hide AsBits;
  }

  // ----- behind the interpreter

  /** The registers as they are at the start. */
  function Reset(): (s: State)
    ensures s.Valid()
  {
    State(0x4ab, 0x0310_1000, 0, 0, seq(512, _ => 0), 0, seq(256, _ => 0), 320 * 2, 16, MMSP2_PALETTE, false,
          seq(256, _ => 0), seq(16, _ => 0))
  }

  type Live = s: State | s.Valid() witness Reset()

  /** The bus the interpreter sees, memory aside; other gives what the registers left out of this model read as. */
  function RegisterBus(now: Clock.Time, other: Word -> Word): Bus<Live>
    requires now.Valid()
  {
    var read8: (Live, Word) -> (Live, Byte) := (s, a) => (s, 0);
    var read16: (Live, Word) -> (Live, Half) :=
      (s, a) => (s, match Read16(s, a) case Some(h) => h case None => other(a) % 0x1_0000);
    var read32: (Live, Word) -> (Live, Word) :=
      (s, a) => (s, match Read32(s, now, a) case Some(w) => w case None => other(a));
    var write8: (Live, Word, Word) -> Live := (s, a, d) => s;
    var write16: (Live, Word, Word) -> Live := (s, a, d) => After16(s, a, d);
    var write32: (Live, Word, Word) -> Live := (s, a, d) => After32(s, a, d);
    Bus(read8, read16, read32, write8, write16, write32)
  }

  /** A half-word store of a register with upper bits to the stride. */
  predicate WideStride(x: Transfer, r: Frame)
    requires x.Valid()
  {
    var a := TransferAddress(x, r);
    !x.load && x.size == HalfSize && VideoWindow(a) && RegisterOf(a) == 0x290c && r[x.rd] >= 0x1_0000
  }

  /** That is the one transfer in which these registers see bits that the manual's store does not send. */
  lemma BusIsNarrow(now: Clock.Time, other: Word -> Word, x: Transfer, r: Frame, dev: Live)
    requires x.Valid() && now.Valid()
    ensures NarrowAt(RegisterBus(now, other), x, r, dev) <==> !WideStride(x, r)
  {
    hide After16, After32, TransferAddress, Read16, Read32, VideoWindow, RegisterOf;
    HalfStoreIsNarrow(dev, TransferAddress(x, r), r[x.rd]);
  }

  /** So trapped instructions do to these registers what the manual says, right-shifted offsets and that store aside. */
  lemma RegistersMeetManual(now: Clock.Time, other: Word -> Word, op: Word, frame: Frame, dev: Live)
    requires now.Valid()
    requires HandleOp(RegisterBus(now, other), op, frame, dev).Resumed?
    requires DecodeTransfer(op).Some? ==>
               var x := DecodeTransfer(op).value; !Clash(x) && !RightShifted(x) && !WideStride(x, frame)
    ensures !ConditionPassed(Field(op, 0x1000_0000, 16), frame[FLAGS]) ==>
              HandleOp(RegisterBus(now, other), op, frame, dev) == Resumed(frame, dev)
    ensures ConditionPassed(Field(op, 0x1000_0000, 16), frame[FLAGS]) ==>
              && DecodeTransfer(op).Some?
              && HandleOp(RegisterBus(now, other), op, frame, dev)
                 == Perform(RegisterBus(now, other), DecodeTransfer(op).value, frame, dev)
  {
    hide HandleOp, Perform, RegisterBus, NarrowAt, WideStride, Clash, RightShifted, ConditionPassed, Field;
    if DecodeTransfer(op).Some? {
      BusIsNarrow(now, other, DecodeTransfer(op).value, frame, dev);
    }
    hide DecodeTransfer;
    HandlerMeetsManual(RegisterBus(now, other), op, frame, dev);
  }

  // ----- the emulated device as the source keeps it

  class Mmsp2 {
    var cntl: Half
    var adr: Word
    var oldAdr: Word
    var index: nat
    const pal: array<bv16>
    var control: Word
    const mlcpalette: array<bv16>
    var stride: Word
    var bpp: nat
    var dirty: nat
    var requested: bool
    const hostPal: array<bv16>
    const blit: array<Word>
    const memory: array<Byte>
    const umem: Blitter.HostBase

    ghost function View(): State
      reads this, pal, mlcpalette, hostPal, blit
    {
      State(cntl, adr, oldAdr, index, pal[..], control, mlcpalette[..], stride, bpp, dirty, requested, hostPal[..],
            blit[..])
    }

    ghost predicate Valid()
      reads this, pal, mlcpalette, hostPal, blit
    {
      && View().Valid()
      && pal != mlcpalette && pal != hostPal && mlcpalette != hostPal
      && memory as object !in {pal as object, mlcpalette as object, hostPal as object, blit as object}
    }

    /** `emu_init`'s part: 16 bits per pixel, first frame buffer, palette marked dirty, everything else zero. */
    constructor (host: array<Byte>, at: Blitter.HostBase)
      ensures Valid() && memory == host && umem == at
      ensures fresh(pal) && fresh(mlcpalette) && fresh(hostPal) && fresh(blit)
      ensures View() == Reset()
    {
      memory, umem := host, at;
      cntl, adr, oldAdr, index, control := 0x4ab, 0x0310_1000, 0, 0, 0;
      stride, bpp, dirty, requested := 320 * 2, 16, MMSP2_PALETTE, false;
      pal := new bv16[512](_ => 0);
      mlcpalette := new bv16[256](_ => 0);
      hostPal := new bv16[256](_ => 0);
      blit := new Word[16](_ => 0);
    }

    method PutColour(d: Word)
      requires Valid()
      modifies this, pal
      ensures Valid() && View() == PaletteData(old(View()), d)
    {
      hide LowHalf;
      pal[index] := LowHalf(d);
      index := (index + 1) % 512;
      dirty := MMSP2_PALETTE;
    }

    method Write16(a: Word, d: Word)
      requires Valid()
      modifies this, pal
      ensures Valid() && View() == After16(old(View()), a, d)
    {
      hide Or, LowHalf, PaletteData;
      if !VideoWindow(a) { return; }
      match RegisterOf(a) {
      case 0x28da =>
        cntl := Or(d % 0x1_0000, 0xaa) % 0x1_0000;
        var mode := Field(d, 0x200, 4);
        bpp := if mode != 0 then mode * 8 else 4;
      case 0x290c => stride := d;
      case 0x2912 => adr := adr / 0x1_0000 * 0x1_0000 + d % 0x1_0000;
      case 0x2914 =>
        adr := d % 0x1_0000 * 0x1_0000 + adr % 0x1_0000;
        if adr != oldAdr { requested := true; }
        oldAdr := adr;
      case 0x2958 => index := d % 512;
      case 0x295a => PutColour(d);
      case _ =>
      }
    }

    method Write32(a: Word, d: Word)
      requires Valid() && BlitIsDefined(umem, View(), a, d, memory.Length)
      modifies this, pal, mlcpalette, blit, memory
      ensures Valid()
      ensures var s := old(View());
        View() == After32(s, a, d).(requested := After32(s, a, d).requested || BlitRefreshes(umem, s, a, d))
      ensures memory[..] == MemoryAfter32(umem, old(View()), old(memory[..]), a, d)
    {
      hide LowHalf, PaletteData;
      if BlitterWindow(a) {
        blit[a % 0x1000 / 4] := d;
        if a % 0x1000 == 0x34 && d % 2 == 1 {
          var ok, refresh := Blitter.BlitterDo(memory, umem, BlitRegisters(blit[..]), adr);
          if refresh { requested := true; }
        }
        return;
      }
      if !VideoWindow(a) { return; }
      match RegisterOf(a) {
      case 0x295a =>
        PutColour(d);
        PutColour(d / 0x1_0000);
      case 0x4024 | 0x4058 =>
        control := d;
        if !Bit(d, 0x20) { return; }
        bpp := if d / 0x1_0000 == 0x443a then 8 else 16;
      case 0x402c | 0x4060 => stride := d;
      case 0x4038 | 0x406c =>
        adr := d;
        if d != oldAdr { requested := true; }
        oldAdr := d;
      case 0x403c | 0x4070 =>
        mlcpalette[d / 0x100_0000] := LowHalf(d);
        dirty := POLLUX_PALETTE;
      case _ =>
      }
    }

    /** `host_video_update_pal32`. */
    method UpdatePal32()
      requires Valid()
      modifies hostPal
      ensures hostPal[..] == Converted(pal[..])
    {
      var i := 0;
      while i < 256
        invariant 0 <= i <= 256
        invariant forall k | 0 <= k < i :: hostPal[k] == Rgb565(Colour(pal[..], k))
      {
        hostPal[i] := Rgb565(((pal[2 * i + 1] as bv32) << 16) | (pal[2 * i] as bv32));
        i := i + 1;
      }
    }

    /** `host_video_update_pal16`. */
    method UpdatePal16()
      requires Valid()
      modifies hostPal
      ensures hostPal[..] == mlcpalette[..]
    {
      var i := 0;
      while i < 256
        invariant 0 <= i <= 256
        invariant forall k | 0 <= k < i :: hostPal[k] == mlcpalette[k]
      {
        hostPal[i] := mlcpalette[i];
        i := i + 1;
      }
    }

    method MlcFlip()
      requires Valid()
      modifies this, hostPal
      ensures Valid() && View() == AfterFlip(old(View()))
    {
      hide Converted;
      if bpp <= 8 && dirty != 0 {
        if dirty == MMSP2_PALETTE { UpdatePal32(); } else { UpdatePal16(); }
        dirty := 0;
      }
    }
  }
}
