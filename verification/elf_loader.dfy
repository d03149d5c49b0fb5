/**
 The loading loop of `main`: PT_LOAD segments are mapped over whole pages, filled from the file, and the lowest page
 is remembered so that the linkpages can be put below it. Memory is a function of the address; mmap and fread appear
 by their effect on it, and as error exits.
 */
module ElfLoader {
  import opened Words
  import opened IoOps
  import Linkpages

  const PAGE := 0x1000
  const PT_LOAD := 1

  type Memory = int -> Byte

  /** An entry of /proc/self/maps. */
  datatype Range = Range(start: Word, end: Word) {
    predicate Whole() { start % PAGE == 0 && end % PAGE == 0 && start < end }
  }

  function PageDown(a: nat): nat { a / PAGE * PAGE }
  function PageUp(a: nat): nat { (a + (PAGE - 1)) / PAGE * PAGE }

  datatype Segment = Segment(kind: Word, offset: Word, vaddr: Word, filesz: Word, memsz: Word) {
    /** What the format asks of a loadable segment: no more file than memory, and no wrap-around. */
    predicate Sane() { kind == PT_LOAD ==> filesz <= memsz && vaddr as int + memsz < 0x1_0000_0000 }

    /** End and length as 32-bit arithmetic gives them. */
    function End(): Word { Wrap(vaddr as int + memsz) }
    function Length(): Word { Wrap(memsz as int + vaddr % PAGE) }

    function Base(): nat { PageDown(vaddr) }

    /** The end of the pages that are mapped. */
    function Limit(): nat { Base() + PageUp(Length()) }

    /** Whether a lies in those pages. */
    predicate Covers(a: int) { kind == PT_LOAD && Base() <= a < Limit() }

    /** Whether loading stores to a: its pages are cleared, and the file is read to where it belongs. */
    predicate Stores(a: int) { Covers(a) || (kind == PT_LOAD && vaddr <= a < vaddr as int + filesz) }

    /** The segment's byte at a: from the file as far as that goes, otherwise zero. */
    function ByteAt(file: seq<Byte>, a: int): Byte {
      if 0 <= a - vaddr < filesz && offset as int + (a - vaddr) < |file| then file[offset as int + (a - vaddr)] else 0
    }
  }

  /** The ranges from start to end and of m have no address in common. */
  predicate Apart(m: Range, start: int, end: int) {
    m.end <= start || end <= m.start
  }

  /** `is_range_used`: one more than the index of the first mapping in the way; 0 if there is none. */
  method IsRangeUsed(maps: seq<Range>, start: Word, end: Word) returns (hit: nat)
    ensures hit <= |maps|
    ensures hit == 0 <==> forall k | 0 <= k < |maps| :: Apart(maps[k], start, end)
    ensures hit > 0 ==> !Apart(maps[hit - 1], start, end) && forall k | 0 <= k < hit - 1 :: Apart(maps[k], start, end)
  {
    var i := 0;
    while i < |maps|
      invariant 0 <= i <= |maps|
      invariant forall k | 0 <= k < i :: Apart(maps[k], start, end)
    {
      if !(maps[i].end <= start) && !(end <= maps[i].start) { return i + 1; }
      i := i + 1;
    }
    return 0;
  }

  /** Rounding to pages does not reach a mapping of whole pages that the unrounded range stays clear of. */
  lemma RoundingStaysClear(m: Range, s: Segment)
    requires m.Whole() && s.Sane() && s.kind == PT_LOAD
    requires Apart(m, s.vaddr, s.End())
    ensures Apart(m, s.Base(), s.Limit())
  {
    LimitIsEnd(s);
    assert s.End() == s.vaddr as int + s.memsz;
    Rounding(s.vaddr, m.end);
    Rounding(s.vaddr as int + s.memsz, m.start);
    hide PageDown, PageUp;
  }

  lemma Rounding(a: nat, edge: nat)
    requires edge % PAGE == 0
    ensures edge <= a ==> edge <= PageDown(a)
    ensures a <= edge ==> PageUp(a) <= edge
  {
  }

  lemma LimitIsEnd(s: Segment)
    requires s.Sane() && s.kind == PT_LOAD
    ensures s.Limit() == PageUp(s.vaddr as int + s.memsz)
  {
    assert s.Length() == s.memsz as int + s.vaddr % PAGE;
    var q, r := s.vaddr / PAGE, s.vaddr % PAGE;
    assert s.vaddr == q * PAGE + r;
    MovedUp(q, r + s.memsz as int);
    hide PageUp;
  }

  lemma MovedUp(q: nat, n: nat)
    ensures PageUp(q * PAGE + n) == q * PAGE + PageUp(n)
  {
    var k, rest := (n + (PAGE - 1)) / PAGE, (n + (PAGE - 1)) % PAGE;
    DivUnique(q * PAGE + n + (PAGE - 1), PAGE, q + k, rest);
  }

  // ----- loading

  function Zeroed(m: Memory, lo: int, hi: int): Memory {
    a => if lo <= a < hi then 0 else m(a)
  }

  function Copied(m: Memory, at: int, bytes: seq<Byte>): Memory {
    a => if at <= a < at + |bytes| then bytes[a - at] else m(a)
  }

  /** Why loading stops: a mapping in the way, a refused mmap, or a file that is too short. */
  datatype Failure = Used | NoMap | ShortFile

  datatype Result = Failed(why: Failure) | Done(mem: Memory, lowest: Word)

  /** mmap gives the wanted pages if there are any, below the end of the address space. */
  predicate CanMap(s: Segment, top: nat) {
    s.Length() > 0 && s.Limit() <= top
  }

  /** fread gets all it asks for, unless the file or the address space ends before. */
  predicate CanRead(s: Segment, file: seq<Byte>, top: nat) {
    s.filesz > 0 ==> s.offset as int + s.filesz <= |file| && s.vaddr as int + s.filesz <= top
  }

  function Taken(lowest: Word, base: Word): Word {
    if lowest == 0 || base < lowest then base else lowest
  }

  predicate Clear(maps: seq<Range>, s: Segment) {
    forall k | 0 <= k < |maps| :: Apart(maps[k], s.vaddr, s.End())
  }

  /** The loop, from a memory and the lowest page so far. */
  function LoadAll(m: Memory, lowest: Word, segments: seq<Segment>, file: seq<Byte>, maps: seq<Range>, top: nat): Result
    decreases |segments|
  {
    if segments == [] then Done(m, lowest)
    else
      var s := segments[0];
      if s.kind != PT_LOAD then LoadAll(m, lowest, segments[1..], file, maps, top)
      else if !Clear(maps, s) then Failed(Used)
      else if !CanMap(s, top) then Failed(NoMap)
      else if !CanRead(s, file, top) then Failed(ShortFile)
      else
        LoadAll(LoadOne(m, s, file), Taken(lowest, PageDown(s.vaddr)), segments[1..], file, maps, top)
  }

  function LoadOne(m: Memory, s: Segment, file: seq<Byte>): Memory {
    var mapped := Zeroed(m, s.Base(), s.Limit());
    if s.filesz > 0 && s.offset as int + s.filesz <= |file|
    then Copied(mapped, s.vaddr, file[s.offset as int..s.offset as int + s.filesz])
    else mapped
  }

  method LoadSegments(m: Memory, segments: seq<Segment>, file: seq<Byte>, maps: seq<Range>, top: nat)
    returns (r: Result)
    ensures r == LoadAll(m, 0, segments, file, maps, top)
  {
    hide Zeroed, Copied;
    var mem, lowest: Word, i := m, 0, 0;
    while i < |segments|
      invariant 0 <= i <= |segments|
      invariant LoadAll(m, 0, segments, file, maps, top) == LoadAll(mem, lowest, segments[i..], file, maps, top)
    {
      var s := segments[i];
      assert segments[i..][1..] == segments[i + 1..];
      if s.kind == PT_LOAD {
        var end: Word := Wrap(s.vaddr as int + s.memsz);
        var hit := IsRangeUsed(maps, s.vaddr, end);
        if hit != 0 { return Failed(Used); }
        var align := s.vaddr % PAGE;
        var base: Word := s.vaddr - align;
        if !CanMap(s, top) { return Failed(NoMap); }
        mem := Zeroed(mem, base, base + PageUp(Wrap(s.memsz as int + align)));
        if s.filesz > 0 {
          if !CanRead(s, file, top) { return Failed(ShortFile); }
          mem := Copied(mem, base + align, file[s.offset as int..s.offset as int + s.filesz]);
        }
        if lowest == 0 || base < lowest { lowest := base; }
      }
      i := i + 1;
    }
    return Done(mem, lowest);
  }

  // ----- the image

  /** The last segment that stores to a; the number of segments if none does. */
  function LastStoring(segments: seq<Segment>, a: int): (i: nat)
    ensures i <= |segments|
    ensures i < |segments| ==> segments[i].Stores(a)
    ensures forall j | i < j < |segments| :: !segments[j].Stores(a)
    ensures i == |segments| ==> forall j | 0 <= j < |segments| :: !segments[j].Stores(a)
    decreases |segments|
  {
    if segments == [] then 0
    else
      var rest := LastStoring(segments[1..], a);
      assert forall j | 0 < j < |segments| :: segments[j] == segments[1..][j - 1];
      if rest + 1 == |segments| && segments[0].Stores(a) then 0 else rest + 1
  }

  lemma OneByte(m: Memory, s: Segment, file: seq<Byte>, a: int)
    requires s.kind == PT_LOAD && (s.filesz > 0 ==> s.offset as int + s.filesz <= |file|)
    ensures LoadOne(m, s, file)(a) == if s.Stores(a) then s.ByteAt(file, a) else m(a)
  {
    hide PageUp, PageDown;
  }

  /** A sane segment is read into its own pages. */
  lemma StoresItsPages(s: Segment, a: int)
    requires s.Sane() && s.kind == PT_LOAD
    ensures s.Stores(a) <==> s.Covers(a)
    ensures s.vaddr <= a < s.vaddr as int + s.memsz ==> s.Covers(a)
  {
    LimitIsEnd(s);
    PageBounds(s.vaddr);
    PageBounds(s.vaddr as int + s.memsz);
    hide PageUp, PageDown;
  }

  lemma PageBounds(a: nat)
    ensures PageDown(a) <= a <= PageUp(a)
  {
  }

  /**
   Every byte after loading, whatever the headers say: what the last segment that stores to it puts there; nothing
   else changes.
   */
  lemma {:induction false} LastStoreWins(
    m: Memory, lowest: Word, segments: seq<Segment>, file: seq<Byte>, maps: seq<Range>, top: nat, a: int)
    requires LoadAll(m, lowest, segments, file, maps, top).Done?
    ensures var i := LastStoring(segments, a);
      LoadAll(m, lowest, segments, file, maps, top).mem(a)
        == if i < |segments| then segments[i].ByteAt(file, a) else m(a)
    decreases |segments|
  {
    if segments != [] {
      var s, rest := segments[0], segments[1..];
      hide Clear, CanMap, LoadOne;
      if s.kind != PT_LOAD {
        LastStoreWins(m, lowest, rest, file, maps, top, a);
      } else {
        LastStoreWins(LoadOne(m, s, file), Taken(lowest, PageDown(s.vaddr)), rest, file, maps, top, a);
        OneByte(m, s, file, a);
      }
      hide Segment.Stores, Segment.ByteAt;
    }
  }

  /** Loading succeeded, so every segment passed every check. */
  lemma {:induction false} AllChecked(
    m: Memory, lowest: Word, segments: seq<Segment>, file: seq<Byte>, maps: seq<Range>, top: nat, i: nat)
    requires LoadAll(m, lowest, segments, file, maps, top).Done?
    requires i < |segments| && segments[i].kind == PT_LOAD
    ensures Clear(maps, segments[i]) && CanMap(segments[i], top)
    ensures CanRead(segments[i], file, top)
    decreases |segments|
  {
    var s := segments[0];
    hide Clear, CanMap, CanRead, LoadOne, Taken;
    if i > 0 {
      if s.kind != PT_LOAD {
        AllChecked(m, lowest, segments[1..], file, maps, top, i - 1);
      } else {
        AllChecked(LoadOne(m, s, file), Taken(lowest, PageDown(s.vaddr)), segments[1..], file, maps, top, i - 1);
      }
    }
  }

  /** No page is mapped for two segments. */
  predicate PagesApart(segments: seq<Segment>) {
    forall i, j | 0 <= i < j < |segments| && segments[i].kind == segments[j].kind == PT_LOAD ::
      segments[i].Limit() <= segments[j].Base() || segments[j].Limit() <= segments[i].Base()
  }

  /** The image: every byte of every segment is its byte of the file or zero. */
  lemma ImageIsLoaded(
    m: Memory, segments: seq<Segment>, file: seq<Byte>, maps: seq<Range>, top: nat, i: nat, a: int)
    requires forall s | s in segments :: s.Sane()
    requires PagesApart(segments) && LoadAll(m, 0, segments, file, maps, top).Done?
    requires i < |segments| && segments[i].kind == PT_LOAD
    requires segments[i].vaddr <= a < segments[i].vaddr as int + segments[i].memsz
    ensures
      var s, byte := segments[i], LoadAll(m, 0, segments, file, maps, top).mem(a);
      if a < s.vaddr as int + s.filesz
      then s.offset as int + (a - s.vaddr) < |file| && byte == file[s.offset as int + (a - s.vaddr)]
      else byte == 0
  {
    var s := segments[i];
    AllChecked(m, 0, segments, file, maps, top, i);
    LastStoreWins(m, 0, segments, file, maps, top, a);
    var j := LastStoring(segments, a);
    assert s.Sane() && s.Covers(a) by { StoresItsPages(s, a); }
    if j < |segments| {
      assert segments[j].Sane();
      StoresItsPages(segments[j], a);
    }
    StoresItsPages(s, a);
    hide LoadAll, PageUp, PageDown, Segment.Limit;
  }

  /** Mappings that existed before keep their contents. */
  lemma OldMappingsStay(
    m: Memory, segments: seq<Segment>, file: seq<Byte>, maps: seq<Range>, top: nat, k: nat, a: int)
    requires forall s | s in segments :: s.Sane()
    requires LoadAll(m, 0, segments, file, maps, top).Done?
    requires k < |maps| && maps[k].Whole() && maps[k].start <= a < maps[k].end
    ensures LoadAll(m, 0, segments, file, maps, top).mem(a) == m(a)
  {
    LastStoreWins(m, 0, segments, file, maps, top, a);
    var i := LastStoring(segments, a);
    if i < |segments| {
      AllChecked(m, 0, segments, file, maps, top, i);
      assert segments[i].Sane();
      StoresItsPages(segments[i], a);
      RoundingStaysClear(maps[k], segments[i]);
    }
  }

  /** Whether headers load does not depend on what memory held. */
  lemma {:induction false} LoadsWhatever(
    m: Memory, m': Memory, lowest: Word, segments: seq<Segment>, file: seq<Byte>, maps: seq<Range>, top: nat)
    ensures LoadAll(m, lowest, segments, file, maps, top).Done?
       <==> LoadAll(m', lowest, segments, file, maps, top).Done?
    decreases |segments|
  {
    hide Clear, CanMap, CanRead, LoadOne, Taken;
    if segments != [] {
      var s, rest := segments[0], segments[1..];
      if s.kind != PT_LOAD {
        LoadsWhatever(m, m', lowest, rest, file, maps, top);
      } else {
        var next := Taken(lowest, PageDown(s.vaddr));
        LoadsWhatever(LoadOne(m, s, file), LoadOne(m', s, file), next, rest, file, maps, top);
      }
    }
  }

  predicate Keeps(m: Memory, segments: seq<Segment>, file: seq<Byte>, maps: seq<Range>, top: nat, a: int) {
    var r := LoadAll(m, 0, segments, file, maps, top);
    r.Done? && r.mem(a) == m(a)
  }

  predicate StoredTo(segments: seq<Segment>, a: int) {
    exists i :: 0 <= i < |segments| && segments[i].Stores(a)
  }

  /** For any headers that load: a byte is kept, whatever it was, exactly if no segment stores to it. */
  lemma KeptExactly(m0: Memory, segments: seq<Segment>, file: seq<Byte>, maps: seq<Range>, top: nat, a: int)
    requires LoadAll(m0, 0, segments, file, maps, top).Done?
    ensures (forall m: Memory :: Keeps(m, segments, file, maps, top, a)) <==> !StoredTo(segments, a)
  {
    hide LoadAll, Segment.Stores, Segment.ByteAt;
    var i := LastStoring(segments, a);
    if i < |segments| {
      var byte := segments[i].ByteAt(file, a);
      var other: Memory := x => if byte == 0 then 1 else 0;
      LoadsWhatever(m0, other, 0, segments, file, maps, top);
      LastStoreWins(other, 0, segments, file, maps, top, a);
      assert !Keeps(other, segments, file, maps, top, a);
    } else {
      forall m: Memory ensures Keeps(m, segments, file, maps, top, a) {
        LoadsWhatever(m0, m, 0, segments, file, maps, top);
        LastStoreWins(m, 0, segments, file, maps, top, a);
      }
    }
  }

  const HIGH_MAPPING := Range(0x9000_0000, 0x9000_1000)

  /** A segment whose end wraps around to zero is never found in the way of anything: it clears what is there. */
  lemma WrappedSegmentClears(m: Memory)
    ensures var s := Segment(PT_LOAD, 0, 0x8000_0000, 0, 0x8000_0000);
      var r := LoadAll(m, 0, [s], [], [HIGH_MAPPING], 0x1_0000_0000);
      HIGH_MAPPING.Whole() && r.Done? && r.mem(0x9000_0000) == 0
  {
    var s := Segment(PT_LOAD, 0, 0x8000_0000, 0, 0x8000_0000);
    assert LoadAll(LoadOne(m, s, []), 0x8000_0000, [s][1..], [], [HIGH_MAPPING], 0x1_0000_0000).Done?;
  }

  /** One with more file than memory is read over what lies behind its pages. */
  lemma LongSegmentOverwrites(m: Memory, file: seq<Byte>)
    requires |file| == 0x1001
    ensures var s := Segment(PT_LOAD, 0, 0x8fff_f000, 0x1001, 1);
      var r := LoadAll(m, 0, [s], file, [HIGH_MAPPING], 0x1_0000_0000);
      r.Done? && r.mem(0x9000_0000) == file[0x1000]
  {
    var s := Segment(PT_LOAD, 0, 0x8fff_f000, 0x1001, 1);
    assert LoadAll(LoadOne(m, s, file), 0x8fff_f000, [s][1..], file, [HIGH_MAPPING], 0x1_0000_0000).Done?;
  }

  // ----- the lowest segment and the linkpages below it

  /** The first pages of the loadable segments, in order. */
  function Bases(segments: seq<Segment>): seq<Word> {
    if segments == [] then []
    else (if segments[0].kind == PT_LOAD then [PageDown(segments[0].vaddr)] else []) + Bases(segments[1..])
  }

  function TakenAll(lowest: Word, bases: seq<Word>): Word
    decreases |bases|
  {
    if bases == [] then lowest else TakenAll(Taken(lowest, bases[0]), bases[1..])
  }

  lemma {:induction false} LowestOfBases(
    m: Memory, lowest: Word, segments: seq<Segment>, file: seq<Byte>, maps: seq<Range>, top: nat)
    requires LoadAll(m, lowest, segments, file, maps, top).Done?
    ensures LoadAll(m, lowest, segments, file, maps, top).lowest == TakenAll(lowest, Bases(segments))
    decreases |segments|
  {
    hide Clear, CanMap, LoadOne, Taken;
    if segments != [] {
      var s := segments[0];
      if s.kind != PT_LOAD {
        LowestOfBases(m, lowest, segments[1..], file, maps, top);
        assert [] + Bases(segments[1..]) == Bases(segments[1..]);
      } else {
        var base: Word := PageDown(s.vaddr);
        LowestOfBases(LoadOne(m, s, file), Taken(lowest, base), segments[1..], file, maps, top);
        assert ([base] + Bases(segments[1..]))[1..] == Bases(segments[1..]);
      }
    }
  }

  /** The least of some words. */
  predicate Least(w: Word, s: seq<Word>) {
    w in s && forall x | x in s :: w <= x
  }

  lemma {:induction false} TakenIsLeast(lowest: Word, bases: seq<Word>)
    requires lowest != 0 && 0 !in bases
    ensures Least(TakenAll(lowest, bases), [lowest] + bases)
    decreases |bases|
  {
    if bases != [] {
      var rest, next := bases[1..], Taken(lowest, bases[0]);
      TakenIsLeast(next, rest);
      assert forall x | x in [lowest] + bases :: x == lowest || x == bases[0] || x in rest;
      assert forall x | x in [next] + rest :: x in [lowest] + bases;
      assert next in [next] + rest && forall x | x in rest :: x in [next] + rest;
    }
  }

  /** A segment on page zero looks like no segment so far: what came before it is forgotten. */
  lemma {:induction false} ZeroForgets(lowest: Word, bases: seq<Word>, i: nat)
    requires i < |bases| && bases[i] == 0
    ensures TakenAll(lowest, bases) == TakenAll(0, bases[i + 1..])
    decreases |bases|
  {
    if i > 0 {
      ZeroForgets(Taken(lowest, bases[0]), bases[1..], i - 1);
      assert bases[1..][i..] == bases[i + 1..];
    }
  }

  lemma {:induction false} TakenNotZero(lowest: Word, bases: seq<Word>)
    requires 0 !in bases && (lowest != 0 || bases != [])
    ensures TakenAll(lowest, bases) != 0
    decreases |bases|
  {
    if bases != [] { TakenNotZero(Taken(lowest, bases[0]), bases[1..]); }
  }

  /** The index of the last zero. */
  function LastZero(s: seq<Word>): (i: nat)
    requires 0 in s
    ensures i < |s| && s[i] == 0 && 0 !in s[i + 1..]
  {
    if s[|s| - 1] == 0 then |s| - 1
    else
      assert s == s[..|s| - 1] + [s[|s| - 1]];
      var i := LastZero(s[..|s| - 1]);
      assert s[i + 1..] == s[..|s| - 1][i + 1..] + [s[|s| - 1]];
      i
  }

  /**
   The page remembered is the lowest of all exactly if no segment starts on page zero, or the last one does: zero
   doubles as the mark for no segment.
   */
  lemma LowestIsLeast(bases: seq<Word>)
    requires bases != []
    ensures Least(TakenAll(0, bases), bases) <==> 0 !in bases || bases[|bases| - 1] == 0
  {
    if 0 !in bases {
      TakenIsLeast(bases[0], bases[1..]);
      assert [bases[0]] + bases[1..] == bases;
    } else {
      var i := LastZero(bases);
      ZeroForgets(0, bases, i);
      if i + 1 < |bases| {
        TakenNotZero(0, bases[i + 1..]);
        assert bases[|bases| - 1] in bases[i + 1..];
      }
    }
  }

  lemma {:induction false} BaseListed(segments: seq<Segment>, i: nat)
    requires i < |segments| && segments[i].kind == PT_LOAD
    ensures PageDown(segments[i].vaddr) in Bases(segments)
  {
    if i > 0 { BaseListed(segments[1..], i - 1); }
  }

  lemma {:induction false} BasesWhole(segments: seq<Segment>, b: Word)
    requires b in Bases(segments)
    ensures b % PAGE == 0
  {
    if segments[0].kind != PT_LOAD || b != PageDown(segments[0].vaddr) { BasesWhole(segments[1..], b); }
  }

  /**
   The linkpages that `emu_init` puts below the remembered page are clear of every segment; if there is no room for
   them below it, their address wraps around to the top of memory.
   */
  lemma LinkpagesBelowImage(
    m: Memory, segments: seq<Segment>, file: seq<Byte>, maps: seq<Range>, top: nat, i: nat)
    requires LoadAll(m, 0, segments, file, maps, top).Done? && 0 !in Bases(segments)
    requires i < |segments| && segments[i].kind == PT_LOAD
    ensures
      var lowest := LoadAll(m, 0, segments, file, maps, top).lowest;
      && Least(lowest, Bases(segments)) && lowest <= segments[i].Base()
      && Linkpages.RegionBase(lowest) as int + Linkpages.REGION_SIZE
         == if lowest >= Linkpages.REGION_SIZE then lowest else lowest as int + 0x1_0000_0000
  {
    LowestOfBases(m, 0, segments, file, maps, top);
    BaseListed(segments, i);
    LowestIsLeast(Bases(segments));
    hide LoadAll, TakenAll, Bases;
    var lowest := LoadAll(m, 0, segments, file, maps, top).lowest;
    BasesWhole(segments, lowest);
    WholePagesBelow(lowest);
  }

  lemma WholePagesBelow(lowest: Word)
    requires lowest % PAGE == 0 && lowest != 0
    ensures Linkpages.RegionBase(lowest) as int + Linkpages.REGION_SIZE
         == if lowest >= Linkpages.REGION_SIZE then lowest else lowest as int + 0x1_0000_0000
  {
  }

  // ----- in header fields alone

  /** How many bytes are asked of mmap for a segment, and where the pages it gives end. */
  function Asked(s: Segment): nat { (s.memsz as int + s.vaddr as int % 0x1000) % 0x1_0000_0000 }

  function PagesEnd(s: Segment): nat {
    var up := Asked(s) + 0xfff;
    s.vaddr as int - s.vaddr as int % 0x1000 + (up - up % 0x1000)
  }

  /** No mapping lies between the segment's address and its end, which may have wrapped around. */
  predicate NotInTheWay(maps: seq<Range>, s: Segment) {
    var end := (s.vaddr as int + s.memsz) % 0x1_0000_0000;
    forall k | 0 <= k < |maps| :: maps[k].end <= s.vaddr || end <= maps[k].start
  }

  /** What stops the loop at a segment, the tests in their order. */
  function Stops(s: Segment, file: seq<Byte>, maps: seq<Range>, top: nat): Option<Failure> {
    if s.kind != 1 then None
    else if !NotInTheWay(maps, s) then Some(Used)
    else if Asked(s) == 0 || PagesEnd(s) > top then Some(NoMap)
    else if s.filesz > 0 && (s.offset as int + s.filesz > |file| || s.vaddr as int + s.filesz > top)
    then Some(ShortFile)
    else None
  }

  lemma PagesAre(s: Segment)
    ensures s.Length() == Asked(s) && s.Limit() == PagesEnd(s)
    ensures s.Base() == s.vaddr as int - s.vaddr as int % 0x1000
  {
    var up := Asked(s) + 0xfff;
    assert up / PAGE * PAGE == up - up % 0x1000;
    assert s.vaddr / PAGE * PAGE == s.vaddr as int - s.vaddr as int % 0x1000;
  }

  lemma StopsAre(s: Segment, file: seq<Byte>, maps: seq<Range>, top: nat)
    ensures
      Stops(s, file, maps, top)
        == if s.kind != PT_LOAD then None
           else if !Clear(maps, s) then Some(Used)
           else if !CanMap(s, top) then Some(NoMap)
           else if !CanRead(s, file, top) then Some(ShortFile) else None
  {
    PagesAre(s);
    hide PagesEnd, Asked, Segment.Limit, Segment.Length;
    assert NotInTheWay(maps, s) <==> Clear(maps, s);
  }

  /** Loading succeeds exactly if nothing stops it, and otherwise fails with what stops it at the first segment so. */
  lemma {:induction false} LoadsExactly(
    m: Memory, lowest: Word, segments: seq<Segment>, file: seq<Byte>, maps: seq<Range>, top: nat)
    ensures LoadAll(m, lowest, segments, file, maps, top).Done? <==>
            forall i | 0 <= i < |segments| :: Stops(segments[i], file, maps, top) == None
    ensures
      forall i | 0 <= i < |segments| && Stops(segments[i], file, maps, top).Some?
                 && (forall j | 0 <= j < i :: Stops(segments[j], file, maps, top) == None) ::
        LoadAll(m, lowest, segments, file, maps, top) == Failed(Stops(segments[i], file, maps, top).value)
    decreases |segments|
  {
    hide Stops, Clear, CanMap, CanRead, LoadOne, Taken;
    if segments != [] {
      var s, rest := segments[0], segments[1..];
      StopsAre(s, file, maps, top);
      assert forall i | 1 <= i < |segments| :: segments[i] == rest[i - 1];
      if s.kind != PT_LOAD {
        LoadsExactly(m, lowest, rest, file, maps, top);
      } else {
        LoadsExactly(LoadOne(m, s, file), Taken(lowest, PageDown(s.vaddr)), rest, file, maps, top);
      }
      assert forall i | 0 <= i < |rest| :: rest[i] == segments[i + 1];
    }
  }

  /** A byte is on a page that is mapped for a segment, or the file is read to it. */
  predicate Reaches(s: Segment, a: int) {
    s.kind == 1
    && ((s.vaddr as int - s.vaddr as int % 0x1000 <= a && a < PagesEnd(s))
        || (s.vaddr <= a && a < s.vaddr as int + s.filesz))
  }

  lemma StoresAre(s: Segment, a: int)
    ensures s.Stores(a) <==> Reaches(s, a)
  {
    PagesAre(s);
    hide PagesEnd, Segment.Limit, Segment.Base;
  }

  /**
   For any headers that load: the last segment to reach a byte decides it. It is the file's, if it lies that far behind
   the segment's address, and zero otherwise.
   */
  lemma LoadedByte(m: Memory, segments: seq<Segment>, file: seq<Byte>, maps: seq<Range>, top: nat, i: nat, a: int)
    requires LoadAll(m, 0, segments, file, maps, top).Done?
    requires i < |segments| && Reaches(segments[i], a)
    requires forall j | i < j < |segments| :: !Reaches(segments[j], a)
    ensures
      var s, byte := segments[i], LoadAll(m, 0, segments, file, maps, top).mem(a);
      if s.vaddr <= a && a < s.vaddr as int + s.filesz
      then s.offset as int + (a - s.vaddr) < |file| && byte == file[s.offset as int + (a - s.vaddr)]
      else byte == 0
  {
    AllChecked(m, 0, segments, file, maps, top, i);
    LastStoreWins(m, 0, segments, file, maps, top, a);
    forall j | i <= j < |segments| ensures segments[j].Stores(a) <==> Reaches(segments[j], a) {
      StoresAre(segments[j], a);
    }
    hide LoadAll, Reaches, Segment.Stores, Clear, CanMap;
    assert LastStoring(segments, a) == i;
  }
}
