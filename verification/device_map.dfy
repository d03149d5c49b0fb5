/**
 The device as a program sees it: what stores at given addresses do, said in addresses and numbers, without the names
 that the register functions are written in.
 */
module DeviceMap {
  import opened Words
  import opened IoOps
  import opened Device
  import Blitter
  import Blits
  import Clock
  import Encodings

  /** The windows: a megabyte of registers from 0x7f000000 on, and 0x40 bytes in each page of the next one. */
  lemma Windows(a: Word)
    ensures VideoWindow(a) <==> 0x7f00_0000 <= a <= 0x7f0f_ffff
    ensures BlitterWindow(a) <==> 0x7f10_0000 <= a <= 0x7f1f_ffff && a as int % 0x1000 < 0x40
  {
  }

  // ----- the blitter

  /** Stores of the nine registers that a blit reads. */
  function BlitStores(v: Blits.Values): seq<Step> {
    [Store32(0x7f10_0000, v.dstctrl), Store32(0x7f10_0004, v.dstaddr), Store32(0x7f10_0008, v.dststride),
     Store32(0x7f10_000c, v.srcctrl), Store32(0x7f10_0010, v.srcaddr), Store32(0x7f10_0014, v.srcstride),
     Store32(0x7f10_0028, v.patbackcolor), Store32(0x7f10_002c, v.size), Store32(0x7f10_0030, v.ctrl)]
  }

  lemma OneStore(s: State, index: nat, d: Word)
    requires s.Valid() && index < 16
    ensures After32(s, 0x7f10_0000 + 4 * index, d) == s.(blit := s.blit[index := d])
  {
  }

  /** The register file after a run of word stores to the blitter, by index. */
  function Filed(blit: seq<Word>, stores: seq<(nat, Word)>): (r: seq<Word>)
    requires forall x | x in stores :: x.0 < |blit|
    ensures |r| == |blit|
  {
    if stores == [] then blit
    else
      var x := stores[|stores| - 1];
      assert x in stores;
      Filed(blit, stores[..|stores| - 1])[x.0 := x.1]
  }

  lemma LastFiled(blit: seq<Word>, stores: seq<(nat, Word)>)
    requires stores != [] && forall x | x in stores :: x.0 < |blit|
    ensures
      var x := stores[|stores| - 1];
      x.0 < |blit| && Filed(blit, stores) == Filed(blit, stores[..|stores| - 1])[x.0 := x.1]
  {
    assert stores[|stores| - 1] in stores;
  }

  lemma LastStep(s: State, steps: seq<Step>)
    requires s.Valid() && steps != []
    ensures Device.Run(s, steps) == Next(Device.Run(s, steps[..|steps| - 1]), steps[|steps| - 1])
  {
    hide Next;
  }

  lemma {:induction false} RunFiles(s: State, steps: seq<Step>, stores: seq<(nat, Word)>)
    requires s.Valid() && |steps| == |stores| && forall x | x in stores :: x.0 < 16
    requires forall i | 0 <= i < |steps| :: steps[i] == Store32(0x7f10_0000 + 4 * stores[i].0, stores[i].1)
    ensures Device.Run(s, steps) == s.(blit := Filed(s.blit, stores))
  {
    if steps == [] {
      assert Filed(s.blit, stores) == s.blit;
    } else {
      hide After32, After16, AfterFlip, Device.Run, Filed;
      var n := |steps| - 1;
      LastStep(s, steps);
      assert stores[n] in stores && Filed(s.blit, stores) == Filed(s.blit, stores[..n])[stores[n].0 := stores[n].1] by {
        LastFiled(s.blit, stores);
      }
      RunFiles(s, steps[..n], stores[..n]);
      assert stores[n] in stores;
      OneStore(Device.Run(s, steps[..n]), stores[n].0, stores[n].1);
    }
  }

  /** Nine registers and their places. */
  function Stored(v: Blits.Values): seq<(nat, Word)> {
    [(0, v.dstctrl), (1, v.dstaddr), (2, v.dststride), (3, v.srcctrl), (4, v.srcaddr), (5, v.srcstride),
     (10, v.patbackcolor), (11, v.size), (12, v.ctrl)]
  }

  lemma {:induction false} FiledAt(blit: seq<Word>, stores: seq<(nat, Word)>, k: nat)
    requires (forall x | x in stores :: x.0 < |blit|) && k < |stores|
    requires forall j | k < j < |stores| :: stores[j].0 != stores[k].0
    ensures Filed(blit, stores)[stores[k].0] == stores[k].1
    decreases |stores|
  {
    var n := |stores| - 1;
    if k < n { FiledAt(blit, stores[..n], k); }
  }

  /** The places are places in the file, each for one register. */
  lemma Places(v: Blits.Values)
    ensures |Stored(v)| == |BlitStores(v)| == 9
    ensures forall x | x in Stored(v) :: x.0 < 16
    ensures forall j, k | 0 <= k < j < 9 :: Stored(v)[j].0 != Stored(v)[k].0
    ensures forall i | 0 <= i < 9 :: BlitStores(v)[i] == Store32(0x7f10_0000 + 4 * Stored(v)[i].0, Stored(v)[i].1)
  {
  }

  lemma FieldIs(blit: seq<Word>, v: Blits.Values, k: nat)
    requires |blit| == 16 && k < 9
    ensures |Stored(v)| == 9 && (forall x | x in Stored(v) :: x.0 < 16) && Stored(v)[k] in Stored(v)
    ensures Filed(blit, Stored(v))[Stored(v)[k].0] == Stored(v)[k].1
  {
    hide Stored, Filed, BlitStores;
    Places(v);
    FiledAt(blit, Stored(v), k);
  }

  lemma FirstFields(blit: seq<Word>, v: Blits.Values)
    requires |blit| == 16 && forall x | x in Stored(v) :: x.0 < 16
    ensures var r := Filed(blit, Stored(v)); r[0] == v.dstctrl && r[1] == v.dstaddr && r[2] == v.dststride
  {
    hide Filed;
    FieldIs(blit, v, 0);
    FieldIs(blit, v, 1);
    FieldIs(blit, v, 2);
  }

  lemma MiddleFields(blit: seq<Word>, v: Blits.Values)
    requires |blit| == 16 && forall x | x in Stored(v) :: x.0 < 16
    ensures var r := Filed(blit, Stored(v)); r[3] == v.srcctrl && r[4] == v.srcaddr && r[5] == v.srcstride
  {
    hide Filed;
    FieldIs(blit, v, 3);
    FieldIs(blit, v, 4);
    FieldIs(blit, v, 5);
  }

  lemma LastFields(blit: seq<Word>, v: Blits.Values)
    requires |blit| == 16 && forall x | x in Stored(v) :: x.0 < 16
    ensures var r := Filed(blit, Stored(v)); r[10] == v.patbackcolor && r[11] == v.size && r[12] == v.ctrl
  {
    hide Filed;
    FieldIs(blit, v, 6);
    FieldIs(blit, v, 7);
    FieldIs(blit, v, 8);
  }

  /** After the nine stores the blitter reads the nine values, whatever was there before. */
  lemma RegistersSet(s: State, v: Blits.Values)
    requires s.Valid()
    ensures BlitRegisters(Device.Run(s, BlitStores(v)).blit) == v.File()
  {
    hide Stored, BlitStores, Filed, Device.Run;
    Places(v);
    RunFiles(s, BlitStores(v), Stored(v));
    FirstFields(s.blit, v);
    MiddleFields(s.blit, v);
    LastFields(s.blit, v);
  }

  /** An odd word at 0x7f100034 starts the blit that the registers ask for; any other store there does nothing else. */
  lemma RunRegister(at: Blitter.HostBase, s: State, m: Blitter.Bytes, d: Word)
    requires s.Valid() && BlitIsDefined(at, s, 0x7f10_0034, d, |m|)
    ensures
      var plan := Blitter.Plan(at, BlitRegisters(s.blit));
      && StartsBlit(0x7f10_0034, d) == (d as int % 2 == 1)
      && BlitRegisters(After32(s, 0x7f10_0034, d).blit) == BlitRegisters(s.blit)
      && (d as int % 2 == 0 || plan.None? ==> MemoryAfter32(at, s, m, 0x7f10_0034, d) == m)
      && (d as int % 2 == 1 && plan.Some? ==>
            Blitter.Fits(plan.value, |m|) && MemoryAfter32(at, s, m, 0x7f10_0034, d) == Blitter.Done(m, plan.value))
  {
    hide Blitter.Plan, Blitter.Fits, Blitter.Done, LowHalf, PaletteData;
  }

  /**
   A blit as programs make it, from any state: nine stores, and an odd word to 0x7f100034. Memory is then what the
   blit of the nine values makes of it, and is left alone if that is not possible.
   */
  lemma StoresMakeBlit(at: Blitter.HostBase, s: State, v: Blits.Values, m: Blitter.Bytes, d: Word, t: State)
    requires s.Valid() && t == Device.Run(s, BlitStores(v)) && d as int % 2 == 1
    requires BlitIsDefined(at, t, 0x7f10_0034, d, |m|)
    ensures !Blits.Possible(v) ==> MemoryAfter32(at, t, m, 0x7f10_0034, d) == m
    ensures
      Blits.Possible(v) ==>
        var plan := Blitter.Plan(at, v.File());
        && plan.Some? && Blitter.Fits(plan.value, |m|)
        && MemoryAfter32(at, t, m, 0x7f10_0034, d) == Blitter.Done(m, plan.value)
  {
    hide Blitter.Plan, Blitter.Fits, Blitter.Done, Device.Run, BlitStores, MemoryAfter32, BlitIsDefined, Blits.Possible;
    hide After32, BlitRegisters;
    RegistersSet(s, v);
    RunRegister(at, t, m, d);
    Blits.PlannedExactly(at, v);
  }

  // ----- depth, clocks and palettes

  /**
   The layer control register: with bit 5 clear the depth stays, and otherwise it is 8 bits per pixel exactly if the
   upper half is 0x443a, and 16 if it is not.
   */
  lemma LayerControl(s: State, a: Word, d: Word)
    requires s.Valid() && a in {0x7f00_4024, 0x7f00_4058}
    ensures
      var t := After32(s, a, d);
      && t == s.(control := d, bpp := t.bpp)
      && (d as int / 0x20 % 2 == 0 ==> t.bpp == s.bpp)
      && (d as int / 0x20 % 2 == 1 && 0x443a_0000 <= d <= 0x443a_ffff ==> t.bpp == 8)
      && (d as int / 0x20 % 2 == 1 && !(0x443a_0000 <= d <= 0x443a_ffff) ==> t.bpp == 16)
  {
    hide LowHalf, PaletteData;
  }

  /**
   The two clocks: at 0x7f000a00 the ticks of 7372800 Hz, as nanoseconds times 31665935 over 2^32, and at 0x7f001980
   microseconds, a nanosecond count being divided by multiplying it by 4294968 over 2^32; both modulo 2^32.
   */
  lemma ClocksRead(s: State, now: Clock.Time)
    requires s.Valid() && now.Valid()
    ensures
      var ns := now.sec * 1_000_000_000 + now.nsec;
      var ticks := Read32(s, now, 0x7f00_0a00);
      ticks.Some? && ticks.value as int == ns * 31_665_935 / 0x1_0000_0000 % 0x1_0000_0000
    ensures
      var micro := Read32(s, now, 0x7f00_1980);
      && micro.Some?
      && micro.value as int == (now.sec * 1_000_000 + now.nsec * 4_294_968 / 0x1_0000_0000) % 0x1_0000_0000
  {
    ClocksAt(s, now);
    hide Read32, Clock.Tcount, Clock.Timer3;
    Clock.TcountIsFloor(now);
    Clock.Timer3Reduces(now);
  }

  lemma ClocksAt(s: State, now: Clock.Time)
    requires s.Valid() && now.Valid()
    ensures Read32(s, now, 0x7f00_0a00) == Some(Clock.Tcount(now))
    ensures Read32(s, now, 0x7f00_1980) == Some(Clock.Timer3(now))
  {
    hide Clock.Tcount, Clock.Timer3;
  }

  /** The colour a display shows for red, green and blue bytes: five, six and five bits of them, red on top. */
  predicate Shows(c: bv16, red: bv16, green: bv16, blue: bv16) {
    c >> 11 == red >> 3 && (c >> 5) & 0x3f == green >> 2 && c & 0x1f == blue >> 3
  }

  lemma ColourShows(pal: seq<bv16>, i: nat)
    requires 2 * i + 1 < |pal|
    ensures
      var low, high := pal[2 * i], pal[2 * i + 1];
      Shows(Rgb565(Colour(pal, i)), high & 0xff, low >> 8, low & 0xff)
  {
    BitsShow(pal[2 * i], pal[2 * i + 1]);
  }

  lemma BitsShow(low: bv16, high: bv16)
    ensures Shows(Rgb565(((high as bv32) << 16) | (low as bv32)), high & 0xff, low >> 8, low & 0xff)
  {
  }

  /** The stores that set colour i of the first palette: its number, then green and blue, then red. */
  function ColourStores(i: nat, low: Half, high: Half): seq<Step>
    requires i < 256
  {
    [Store16(0x7f00_2958, 2 * i), Store16(0x7f00_295a, low), Store16(0x7f00_295a, high)]
  }

  lemma ColoursStored(s: State, i: nat, low: Half, high: Half)
    requires s.Valid() && i < 256
    ensures
      var t := Device.Run(s, ColourStores(i, low, high));
      && t.pal[2 * i] == low as bv16 && t.pal[2 * i + 1] == high as bv16
      && t.dirty == MMSP2_PALETTE && t.bpp == s.bpp
  {
    hide Device.Run, After16;
    ThreeSteps(s, Store16(0x7f00_2958, 2 * i), Store16(0x7f00_295a, low), Store16(0x7f00_295a, high));
    IndexStored(s, i);
    DataStored(s.(index := 2 * i), low);
    DataStored(PaletteData(s.(index := 2 * i), low), high);
  }

  lemma ThreeSteps(s: State, a: Step, b: Step, c: Step)
    requires s.Valid()
    ensures Device.Run(s, [a, b, c]) == Next(Next(Next(s, a), b), c)
  {
    hide Next;
    var steps := [a, b, c];
    assert steps[..2] == [a, b] && [a, b][..1] == [a] && [a][..0] == [];
    assert Device.Run(s, []) == s;
    assert Device.Run(s, [a]) == Next(s, a);
    assert Device.Run(s, [a, b]) == Next(Next(s, a), b);
  }

  lemma IndexStored(s: State, i: nat)
    requires s.Valid() && i < 256
    ensures After16(s, 0x7f00_2958, 2 * i) == s.(index := 2 * i)
  {
  }

  lemma DataStored(s: State, h: Half)
    requires s.Valid()
    ensures After16(s, 0x7f00_295a, h) == PaletteData(s, h)
  {
    hide PaletteData;
  }

  /** At 4 or 8 bits per pixel, the next frame shows the colour stored last through the first palette's registers. */
  lemma FirstPaletteShows(s: State, i: nat, low: Half, high: Half)
    requires s.Valid() && i < 256 && s.bpp <= 8
    ensures
      var t := AfterFlip(Device.Run(s, ColourStores(i, low, high)));
      Shows(t.hostPal[i], high as bv16 & 0xff, low as bv16 >> 8, low as bv16 & 0xff)
  {
    hide ColourStores, Device.Run, Rgb565, Colour, Shows;
    var r := Device.Run(s, ColourStores(i, low, high));
    ColoursStored(s, i, low, high);
    ColourShows(r.pal, i);
  }

  /** And that stored last through the other's, which is one word: the number on top, the colour in the lower half. */
  lemma SecondPaletteShows(s: State, a: Word, d: Word)
    requires s.Valid() && s.bpp <= 8 && a in {0x7f00_403c, 0x7f00_4070}
    ensures
      var t := AfterFlip(After32(s, a, d));
      t.hostPal[d as int / 0x100_0000] == (d as int % 0x1_0000) as bv16
  {
    hide Converted;
  }

  // ----- behind the interpreter

  /** str and ldr of r0 at an offset from r1, as instructions. */
  function WordAt(load: bool, offset: nat): Encodings.Parts {
    Encodings.Parts(14, 2, true, true, false, false, load, 1, 0, offset)
  }

  /**
   The screen address through trapped instructions: storing r0 to 0x7f004038 commits it, asking for a refresh if it is
   new, and a load from 0x7f00406c, or half-word loads from 0x7f002912 and 0x7f002914, give it back.
   */
  lemma AddressThroughTraps(now: Clock.Time, other: Word -> Word, frame: Frame, dev: Live)
    requires now.Valid() && frame[1] == 0x7f00_4000
    ensures
      var bus := RegisterBus(now, other);
      var stored := HandleOp(bus, 0xe581_0038, frame, dev);
      && stored.Resumed? && stored.frame == frame
      && stored.dev == dev.(adr := frame[0], oldAdr := frame[0],
                            requested := dev.requested || frame[0] != dev.oldAdr)
      && HandleOp(bus, 0xe591_006c, frame, stored.dev) == Resumed(frame, stored.dev)
      && bus.read16(stored.dev, 0x7f00_2912).1 == frame[0] % 0x1_0000
      && bus.read16(stored.dev, 0x7f00_2914).1 == frame[0] / 0x1_0000
  {
    var bus := RegisterBus(now, other);
    var x, y := WordAt(false, 0x38), WordAt(true, 0x6c);
    assert x.Op() == 0xe581_0038 && y.Op() == 0xe591_006c;
    Encodings.WordAccess(bus, x, frame, dev);
    AddressStored(now, other, frame[0], dev);
    var stored := bus.write32(dev, 0x7f00_4038, frame[0]);
    Encodings.WordAccess(bus, y, frame, stored);
    assert frame[0 := frame[0]] == frame;
    hide HandleOp, RegisterBus, After32, After16, Read32, Read16;
  }

  lemma AddressStored(now: Clock.Time, other: Word -> Word, adr: Word, dev: Live)
    requires now.Valid()
    ensures
      var bus := RegisterBus(now, other);
      var t := bus.write32(dev, 0x7f00_4038, adr);
      && t == dev.(adr := adr, oldAdr := adr, requested := dev.requested || adr != dev.oldAdr)
      && bus.read32(t, 0x7f00_406c) == (t, adr)
      && bus.read16(t, 0x7f00_2912) == (t, adr % 0x1_0000) && bus.read16(t, 0x7f00_2914) == (t, adr / 0x1_0000)
  {
    var t := After32(dev, 0x7f00_4038, adr);
    assert t == dev.(adr := adr, oldAdr := adr, requested := dev.requested || adr != dev.oldAdr);
    assert Read32(t, now, 0x7f00_406c) == Some(adr);
    assert Read16(t, 0x7f00_2912) == Some(adr % 0x1_0000) && Read16(t, 0x7f00_2914) == Some(adr / 0x1_0000);
    hide Read16, Read32, After32, After16;
  }

  /** What a program reads before it has stored anything, and the first frame's depth. */
  lemma AtStart(now: Clock.Time)
    requires now.Valid()
    ensures
      var s := Reset();
      && Read16(s, 0x7f00_28da) == Some(0x4ab) && s.bpp == 16
      && Read16(s, 0x7f00_2912) == Some(0x1000) && Read16(s, 0x7f00_2914) == Some(0x310)
      && Read32(s, now, 0x7f00_4038) == Some(0x0310_1000) && Read32(s, now, 0x7f00_402c) == Some(640)
      && Read16(s, 0x7f00_2958) == Some(0) && Read32(s, now, 0x7f10_0000) == Some(0)
  {
  }
}
