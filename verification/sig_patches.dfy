/**
 The signature patcher `do_patches`: known system-call stubs in the loaded code are replaced by jumps to wrappers,
 in place and in one pass. Its meaning is given word by word: which positions are patched, and what each word becomes.
 */
module SigPatches {
  import opened Words

  /** A table entry. Words after the first may be compared by their top byte only. */
  datatype Patch = Patch(sig: seq<Word>, loose: set<nat>, kind: nat)

  const TABLE_SIZE := 17
  const LONGEST := 8

  function Entry(i: nat): (p: Patch)
    requires i < TABLE_SIZE
    ensures 1 <= |p.sig| <= LONGEST && 0 !in p.loose && WrittenBy(p.kind) <= |p.sig|
  {
    match i
    case 0 => Patch([0xe59c_c000, 0xe33c_0000, 0x1a00_0003, 0xef90_0005], {}, 0)               // open
    case 1 => Patch([0xef90_0005, 0xe1a0_f00e], {}, 0)                                         // open_a1
    case 2 => Patch([0xef90_0005, 0xe370_0a01, 0xe1a0_4000], {}, 1)                            // hw_open
    case 3 => Patch([0xe92d_000f, 0xe1a0_000d, 0xef90_005a, 0xe28d_d010], {}, 0)               // mmap
    case 4 => Patch([0xe52d_5004, 0xe59d_5008, 0xe52d_4004, 0xe59d_4008,
                     0xe1b0_ca05, 0x1a00_0006, 0xe1a0_5625, 0xef90_00c0], {}, 0)               // mmap2
    case 5 => Patch([0xef90_005b, 0xe370_0a01, 0x312f_ff1e], {}, 0)                            // munmap
    case 6 => Patch([0xe59f_c080, 0xe59c_c000, 0xe33c_0000, 0x1a00_0003, 0xef90_0003], {}, 0)  // read
    case 7 => Patch([0xef90_0003, 0xe370_0a01, 0x312f_ff1e], {}, 0)                            // read_a1
    case 8 => Patch([0xef90_0003, 0xe370_0a01, 0xe1a0_4000], {}, 1)                            // hw_read
    case 9 => Patch([0xef90_0036, 0xe370_0a01, 0x312f_ff1e], {}, 0)                            // ioctl
    case 10 => Patch([0xef90_0036, 0xe370_0a01, 0xe1a0_4000], {}, 1)                           // hw_ioctl
    case 11 => Patch([0xe59f_300c, 0xe353_0000, 0x0a00_0000, 0xea00_0000, 0xea00_0000], {3, 4}, 0)  // sigaction
    case 12 => Patch([0xef90_000b, 0xe370_0a01, 0xe1a0_4000], {}, 1)                           // hw_execve
    case 13 => Patch([0xef90_000c, 0xe370_0a01, 0x312f_ff1e, 0xea00_04bb], {3}, 0)             // chdir
    case 14 => Patch([0xef90_0055, 0xe370_0a01, 0x312f_ff1e], {}, 0)                           // readlink
    case 15 => Patch([0xee07_3f5e], {}, 2)                                                     // cache1
    case 16 => Patch([0xee07_0f17], {}, 2)                                                     // cache2
  }

  /** How many words a patch of this kind writes. */
  function WrittenBy(kind: nat): nat {
    if kind == 0 then 2 else if kind == 1 then 3 else 1
  }

  /** Word t of a patch that leads to func. */
  function PatchWord(kind: nat, func: Word, t: nat): Word
    requires kind < 3 && t < WrittenBy(kind)
  {
    match kind
    case 0 => if t == 0 then 0xe51f_f004 else func
    case 1 => if t == 0 then 0xe92d_8000 else if t == 1 then 0xe51f_f004 else func
    case _ => 0xe1a0_0000
  }

  /** Word t of the code at k agrees with word t of entry i. */
  predicate WordMatches(code: seq<Word>, k: nat, i: nat, t: nat)
    requires i < TABLE_SIZE && t < |Entry(i).sig| && k + t < |code|
  {
    var p, word := Entry(i), code[k + t];
    if t in p.loose then word / 0x100_0000 == p.sig[t] / 0x100_0000 else word == p.sig[t]
  }

  /** Every entry is of one of the three kinds. */
  lemma KindsAre(i: nat)
    requires i < TABLE_SIZE
    ensures Entry(i).kind < 3
  {
  }

  /** The words from k on are an instance of entry i. */
  predicate Matches(code: seq<Word>, k: nat, i: nat)
    requires i < TABLE_SIZE && k + LONGEST <= |code|
  {
    forall t | 0 <= t < |Entry(i).sig| :: WordMatches(code, k, i, t)
  }

  /** No words match two entries, so the order of the table does not matter. */
  lemma MatchIsUnique(code: seq<Word>, k: nat, i: nat, j: nat)
    requires i < TABLE_SIZE && j < TABLE_SIZE && k + LONGEST <= |code|
    requires Matches(code, k, i) && Matches(code, k, j)
    ensures i == j
  {
    assert WordMatches(code, k, i, 0) && WordMatches(code, k, j, 0);
    if |Entry(i).sig| > 1 { assert WordMatches(code, k, i, 1); }
    if |Entry(j).sig| > 1 { assert WordMatches(code, k, j, 1); }
    if |Entry(i).sig| > 2 { assert WordMatches(code, k, i, 2); }
    if |Entry(j).sig| > 2 { assert WordMatches(code, k, j, 2); }
    hide Matches;
  }

  /** The entry that matches at k; TABLE_SIZE if none does. */
  ghost function MatchAt(code: seq<Word>, k: nat): (i: nat)
    requires k + LONGEST <= |code|
    ensures i < TABLE_SIZE ==> Matches(code, k, i)
    ensures i >= TABLE_SIZE ==> forall j | 0 <= j < TABLE_SIZE :: !Matches(code, k, j)
  {
    if exists i :: 0 <= i < TABLE_SIZE && Matches(code, k, i)
    then var i: nat :| i < TABLE_SIZE && Matches(code, k, i); i
    else TABLE_SIZE
  }

  // ----- the declared rewrite

  /** What is patched: the loaded words, how many of them are scanned, and where each entry's wrapper is. */
  datatype Job = Job(code: seq<Word>, end: nat, func: nat -> Word) {
    predicate Valid() { end + LONGEST <= |code| + 1 }

    ghost function Found(k: nat): nat
      requires Valid() && k < end
    {
      MatchAt(code, k)
    }

    function Length(i: nat): nat
      requires i < TABLE_SIZE
    {
      |Entry(i).sig|
    }

    /**
     A position is patched if its original words match, no earlier patched match covers it, and, for a cache
     operation, the word before it, as it is after patching, is an unconditional instruction.
     */
    ghost predicate Site(k: nat): (here: bool)
      requires Valid()
      ensures here ==> k < end && Found(k) < TABLE_SIZE
      decreases k, 0
    {
      && k < end && Found(k) < TABLE_SIZE
      && (forall j | 0 <= j < k && Site(j) :: j + Length(Found(j)) <= k)
      && (Entry(Found(k)).kind == 2 ==> k > 0 && Final(k - 1) / 0x1000_0000 == 0xe)
    }

    /** What word k becomes. */
    ghost function Final(k: nat): Word
      requires Valid() && k < |code|
      decreases k, 1
    {
      if exists j :: 0 <= j <= k && Site(j) && k - j < WrittenBy(Entry(Found(j)).kind)
      then
        var j: nat :| j <= k && Site(j) && k - j < WrittenBy(Entry(Found(j)).kind);
        KindsAre(Found(j));
        PatchWord(Entry(Found(j)).kind, func(Found(j)), k - j)
      else code[k]
    }
  }

  /** Patched matches do not overlap. */
  lemma SitesApart(o: Job, j: nat, k: nat)
    requires o.Valid() && j < k && o.Site(j) && o.Site(k)
    ensures j + o.Length(o.Found(j)) <= k
  {
    hide MatchAt, Entry, Job.Final;
  }

  /** The words a site writes lie in its match, and each of them is that site's patch. */
  lemma SiteWrites(o: Job, j: nat, k: nat)
    requires o.Valid() && o.Site(j) && j <= k && k - j < WrittenBy(Entry(o.Found(j)).kind)
    ensures Entry(o.Found(j)).kind < 3 && k < j + o.Length(o.Found(j)) <= |o.code|
    ensures o.Final(k) == PatchWord(Entry(o.Found(j)).kind, o.func(o.Found(j)), k - j)
  {
    KindsAre(o.Found(j));
    hide MatchAt, PatchWord, Entry;
    var i: nat :| i <= k && o.Site(i) && k - i < WrittenBy(Entry(o.Found(i)).kind)
      && o.Final(k) == PatchWord(Entry(o.Found(i)).kind, o.func(o.Found(i)), k - i);
    if i < j { SitesApart(o, i, j); }
    if j < i { SitesApart(o, j, i); }
  }

  /** All other words stay. */
  lemma OthersStay(o: Job, k: nat)
    requires o.Valid() && k < |o.code|
    requires forall j | 0 <= j <= k && o.Site(j) :: k - j >= WrittenBy(Entry(o.Found(j)).kind)
    ensures o.Final(k) == o.code[k]
  {
    hide MatchAt, Entry;
  }

  /** Entries whose patch writes a wrapper's address over the last word of the match: open_a1 and the hw_ family. */
  predicate EndsInAddress(i: nat) {
    i in {1, 2, 8, 10, 12}
  }

  lemma AddressEnds(i: nat)
    requires i < TABLE_SIZE && EndsInAddress(i)
    ensures WrittenBy(Entry(i).kind) == |Entry(i).sig|
  {
  }

  lemma {:induction false} LastWordWritten(o: Job, j: nat)
    requires o.Valid() && o.Site(j) && WrittenBy(Entry(o.Found(j)).kind) == o.Length(o.Found(j))
    ensures var i := o.Found(j); var k := j + o.Length(i) - 1;
            && k < |o.code|
            && o.code[k] / 0x1000_0000 == 0xe
            && o.Final(k) == (if EndsInAddress(i) then o.func(i) else 0xe1a0_0000)
  {
    var i := o.Found(j);
    var k := j + o.Length(i) - 1;
    SiteWrites(o, j, k);
    assert Matches(o.code, j, i);
    assert WordMatches(o.code, j, i, k - j);
    hide MatchAt, Matches, Job.Site, Job.Final;
  }

  /**
   Every decision but one is made on original words; a cache operation looks at the word before it as patched. That
   gives another answer than the original word would exactly if the word before it ends an open_a1 or hw_ patch
     whose wrapper lies outside 0xe0000000-0xefffffff.
   */
  lemma LookBack(o: Job, k: nat)
    requires o.Valid() && 0 < k < o.end
    requires forall j | 0 <= j < k && o.Site(j) :: j + o.Length(o.Found(j)) <= k
    ensures (o.Final(k - 1) / 0x1000_0000 == 0xe) != (o.code[k - 1] / 0x1000_0000 == 0xe)
      <==> exists j :: 0 <= j < k && o.Site(j) && j + o.Length(o.Found(j)) == k
                       && EndsInAddress(o.Found(j)) && o.func(o.Found(j)) / 0x1000_0000 != 0xe
  {
    hide MatchAt, Entry, PatchWord, WrittenBy, EndsInAddress, Job.Site, Job.Final, Job.Found;
    var said := exists j :: 0 <= j < k && o.Site(j) && j + o.Length(o.Found(j)) == k
                            && EndsInAddress(o.Found(j)) && o.func(o.Found(j)) / 0x1000_0000 != 0xe;
    if said {
      assert forall j: nat | j < k && o.Site(j) :: o.Found(j) < TABLE_SIZE;
      var i: nat :| i < k && o.Site(i) && i + o.Length(o.Found(i)) == k
                    && EndsInAddress(o.Found(i)) && o.func(o.Found(i)) / 0x1000_0000 != 0xe;
      AddressEnds(o.Found(i));
      LastWordWritten(o, i);
    } else if j: nat :| j < k && o.Site(j) && k - 1 - j < WrittenBy(Entry(o.Found(j)).kind) {
      LastWordWritten(o, j);
    } else {
      OthersStay(o, k - 1);
    }
  }

  const NOTHING: seq<Word> := [0, 0, 0, 0, 0, 0, 0, 0]

  /**
   Such a word: a cache operation right behind open_a1 is left in place, for the instruction that was before it has
   become the address of a wrapper.
   */
  lemma CacheLeftInPlace(func: nat -> Word)
    requires func(1) / 0x1000_0000 != 0xe
    ensures
      var o := Job([0xef90_0005, 0xe1a0_f00e, 0xee07_3f5e] + NOTHING, 3, func);
      && o.Valid() && o.Found(2) == 15 && !o.Site(2) && o.code[1] / 0x1000_0000 == 0xe
      && o.Site(0) && o.Found(0) == 1 && o.Final(1) == func(1)
  {
    hide Job.Site, Job.Final, MatchAt, Matches;
    var o := Job([0xef90_0005, 0xe1a0_f00e, 0xee07_3f5e] + NOTHING, 3, func);
    assert Matches(o.code, 0, 1) && Matches(o.code, 2, 15) by { TwoMatches(); }
    FoundIs(o, 0, 1);
    FoundIs(o, 2, 15);
    FirstIsSite(o);
    LastWordWritten(o, 0);
    NotBehind(o, 2);
  }

  lemma TwoMatches()
    ensures
      var code: seq<Word> := [0xef90_0005, 0xe1a0_f00e, 0xee07_3f5e] + NOTHING;
      Matches(code, 0, 1) && Matches(code, 2, 15)
  {
  }

  lemma FoundIs(o: Job, k: nat, i: nat)
    requires o.Valid() && k < o.end && i < TABLE_SIZE && Matches(o.code, k, i)
    ensures o.Found(k) == i
  {
    hide Matches, Entry;
    MatchIsUnique(o.code, k, o.Found(k), i);
  }

  lemma FirstIsSite(o: Job)
    requires o.Valid() && 0 < o.end && o.Found(0) < TABLE_SIZE && Entry(o.Found(0)).kind != 2
    ensures o.Site(0)
  {
    hide MatchAt, Entry;
  }

  lemma NotBehind(o: Job, k: nat)
    requires o.Valid() && 0 < k < o.end && o.Found(k) < TABLE_SIZE && Entry(o.Found(k)).kind == 2
    requires o.Final(k - 1) / 0x1000_0000 != 0xe
    ensures !o.Site(k)
  {
    hide MatchAt, Entry, Job.Final;
  }

  // ----- the pass over the code

  /** No match patched before k reaches k. */
  ghost predicate Frontier(o: Job, k: nat)
    requires o.Valid()
  {
    forall j: nat | j < k && o.Site(j) :: j + o.Length(o.Found(j)) <= k
  }

  /** Before k the words are final, from k on they are the original ones. */
  ghost predicate DoneUpTo(o: Job, s: seq<Word>, k: nat)
    requires o.Valid()
  {
    && |s| == |o.code|
    && forall q | 0 <= q < |s| :: s[q] == if q < k then o.Final(q) else o.code[q]
  }

  /** The words at k as they are, with the word before them, let entry i be applied. */
  predicate Applies(s: seq<Word>, k: nat, i: nat)
    requires i < TABLE_SIZE && k + LONGEST <= |s|
  {
    Matches(s, k, i) && (Entry(i).kind == 2 ==> k > 0 && s[k - 1] / 0x1000_0000 == 0xe)
  }

  /** What the pass sees at k tells whether k is to be patched, and with what. */
  lemma AppliesAtSites(o: Job, s: seq<Word>, k: nat, i: nat)
    requires o.Valid() && k < o.end && i < TABLE_SIZE && Frontier(o, k) && DoneUpTo(o, s, k)
    ensures Applies(s, k, i) <==> o.Site(k) && o.Found(k) == i
  {
    assert Matches(s, k, i) <==> Matches(o.code, k, i) by {
      forall t | 0 <= t < |Entry(i).sig| ensures WordMatches(s, k, i, t) <==> WordMatches(o.code, k, i, t) {}
    }
    assert Matches(o.code, k, i) <==> o.Found(k) == i by {
      if Matches(o.code, k, i) && o.Found(k) < TABLE_SIZE { MatchIsUnique(o.code, k, i, o.Found(k)); }
    }
    hide MatchAt, Matches, Entry;
  }

  lemma NotPatched(o: Job, k: nat)
    requires o.Valid() && k < o.end && Frontier(o, k) && !o.Site(k)
    ensures o.Final(k) == o.code[k] && Frontier(o, k + 1)
  {
    hide MatchAt, Entry, Job.Site, Job.Final, PatchWord;
    forall j: nat | j <= k && o.Site(j) ensures k - j >= WrittenBy(Entry(o.Found(j)).kind) {
      assert j < k;
    }
    OthersStay(o, k);
  }

  lemma NowPatched(o: Job, k: nat)
    requires o.Valid() && k < o.end && Frontier(o, k) && o.Site(k)
    ensures Frontier(o, k + o.Length(o.Found(k)))
    ensures k + o.Length(o.Found(k)) <= |o.code| && Entry(o.Found(k)).kind < 3
    ensures forall q | k <= q < k + o.Length(o.Found(k)) ::
      o.Final(q) == if q - k < WrittenBy(Entry(o.Found(k)).kind)
                    then PatchWord(Entry(o.Found(k)).kind, o.func(o.Found(k)), q - k) else o.code[q]
  {
    var next := k + o.Length(o.Found(k));
    KindsAre(o.Found(k));
    forall j: nat | k < j && o.Site(j) ensures next <= j { SitesApart(o, k, j); }
    hide MatchAt, Entry, Job.Site, Job.Final, PatchWord;
    forall q | k <= q < next && q - k < WrittenBy(Entry(o.Found(k)).kind)
      ensures o.Final(q) == PatchWord(Entry(o.Found(k)).kind, o.func(o.Found(k)), q - k)
    {
      SiteWrites(o, k, q);
    }
    forall q | k <= q < next && q - k >= WrittenBy(Entry(o.Found(k)).kind) ensures o.Final(q) == o.code[q] {
      OthersStay(o, q);
    }
  }

  lemma RestStays(o: Job, k: nat)
    requires o.Valid() && o.end <= k && Frontier(o, k)
    ensures forall q | k <= q < |o.code| :: o.Final(q) == o.code[q]
  {
    hide MatchAt, Entry, Job.Site, Job.Final, PatchWord;
    forall q | k <= q < |o.code| ensures o.Final(q) == o.code[q] { OthersStay(o, q); }
  }

  /** The comparison loop for one entry. */
  method SigMatches(a: array<Word>, k: nat, i: nat) returns (same: bool)
    requires i < TABLE_SIZE && k + LONGEST <= a.Length
    ensures same <==> Matches(a[..], k, i)
  {
    var p := Entry(i);
    if a[k] != p.sig[0] {
      assert !WordMatches(a[..], k, i, 0);
      return false;
    }
    assert WordMatches(a[..], k, i, 0);
    var s := 1;
    while s < |p.sig|
      invariant 1 <= s <= |p.sig|
      invariant forall t | 0 <= t < s :: WordMatches(a[..], k, i, t)
    {
      var differs := if s in p.loose then a[k + s] / 0x100_0000 != p.sig[s] / 0x100_0000 else a[k + s] != p.sig[s];
      assert differs <==> !WordMatches(a[..], k, i, s);
      if differs { return false; }
      s := s + 1;
    }
    return true;
  }

  /** The loop over the table: the first entry that can be applied at k; TABLE_SIZE if there is none. */
  method FindPatch(a: array<Word>, k: nat) returns (i: nat)
    requires k + LONGEST <= a.Length
    ensures i <= TABLE_SIZE
    ensures i < TABLE_SIZE ==> Applies(a[..], k, i)
    ensures forall j | 0 <= j < i :: !Applies(a[..], k, j)
  {
    hide Matches, Entry;
    i := 0;
    while i < TABLE_SIZE
      invariant i <= TABLE_SIZE
      invariant forall j | 0 <= j < i :: !Applies(a[..], k, j)
    {
      var same := SigMatches(a, k, i);
      if same && !(Entry(i).kind == 2 && (k < 1 || a[k - 1] / 0x1000_0000 != 0xe)) {
        return;
      }
      i := i + 1;
    }
  }

  method WritePatch(a: array<Word>, k: nat, i: nat, func: Word)
    requires i < TABLE_SIZE && k + LONGEST <= a.Length
    modifies a
    ensures Entry(i).kind < 3
    ensures forall q | 0 <= q < a.Length ::
      a[q] == if k <= q && q - k < WrittenBy(Entry(i).kind) then PatchWord(Entry(i).kind, func, q - k) else old(a[q])
  {
    KindsAre(i);
    var kind := Entry(i).kind;
    hide Entry;
    match kind
    case 0 => a[k], a[k + 1] := 0xe51f_f004, func;
    case 1 => a[k], a[k + 1], a[k + 2] := 0xe92d_8000, 0xe51f_f004, func;
    case _ => a[k] := 0xe1a0_0000;
  }

  /** The pass rewrites the code as declared, and stores nothing else. */
  method DoPatches(a: array<Word>, end: nat, func: nat -> Word)
    requires end + LONGEST <= a.Length + 1
    modifies a
    ensures forall k | 0 <= k < a.Length :: a[k] == Job(old(a[..]), end, func).Final(k)
  {
    hide Matches, Entry, Job.Site, Job.Final, PatchWord, Applies;
    ghost var o := Job(a[..], end, func);
    var seg: nat := 0;
    while seg < end
      invariant Frontier(o, seg) && DoneUpTo(o, a[..], seg)
    {
      var i := FindPatch(a, seg);
      if i < TABLE_SIZE {
        AppliesAtSites(o, a[..], seg, i);
        NowPatched(o, seg);
        WritePatch(a, seg, i, func(i));
        seg := seg + |Entry(i).sig| - 1;
      } else {
        if o.Site(seg) { AppliesAtSites(o, a[..], seg, o.Found(seg)); }
        NotPatched(o, seg);
      }
      seg := seg + 1;
    }
    RestStays(o, seg);
  }
}
