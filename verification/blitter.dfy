/**
 The software blitter: `memset16`, `blt_tr`, the row loops and clipping of `blitter_do`, on the host's memory as one
 byte array, of which 32 MB are upper memory. Copies run in place, so the spec of one row is the ascending copy.
 */
module Blitter {
  import opened Words
  import opened IoOps

  const UPPER_SIZE := 0x200_0000

  type Bytes = seq<Byte>

  // ----- one row

  /** n half-words of pattern from address d, low byte first; all other bytes stay. */
  function Filled16(m: Bytes, d: int, n: nat, pattern: Half): (r: Bytes)
    ensures |r| == |m|
  {
    seq(|m|, a requires 0 <= a < |m| => FilledByte(m, d, n, pattern, a))
  }

  function FilledByte(m: Bytes, d: int, n: nat, pattern: Half, a: nat): Byte
    requires a < |m|
  {
    if d <= a < d + 2 * n then (if (a - d) % 2 == 0 then pattern % 0x100 else pattern / 0x100) else m[a]
  }

  function Filled8(m: Bytes, d: int, n: nat, value: Byte): (r: Bytes)
    ensures |r| == |m|
  {
    seq(|m|, a requires 0 <= a < |m| => if d <= a < d + n then value else m[a])
  }

  /** How many half-words `memset16` really writes. */
  function Written16(d: int, count: int): nat {
    if count > 0 then count else if d / 2 % 2 == 1 then 2 else if count < 0 then 1 else 0
  }

  method StoreHalf(m: array<Byte>, at: nat, value: Half)
    requires at + 2 <= m.Length
    modifies m
    ensures m[..] == Filled16(old(m[..]), at, 1, value)
  {
    m[at] := value % 0x100;
    m[at + 1] := value / 0x100;
  }

  lemma PairBytes(p: Half)
    ensures var value := p as int + p * 0x1_0000;
      && value < 0x1_0000_0000 && value % 0x100 == p % 0x100 && value / 0x100 % 0x100 == p / 0x100
      && value / 0x1_0000 % 0x100 == p % 0x100 && value / 0x100_0000 == p / 0x100
  {
    FourBytes(p % 0x100, p / 0x100, p % 0x100, p / 0x100);
  }

  lemma FourBytes(b0: Byte, b1: Byte, b2: Byte, b3: Byte)
    ensures var value := b0 as int + b1 as int * 0x100 + b2 as int * 0x1_0000 + b3 as int * 0x100_0000;
      value % 0x100 == b0 && value / 0x100 % 0x100 == b1 && value / 0x1_0000 % 0x100 == b2 && value / 0x100_0000 == b3
  {
    var value := b0 as int + b1 as int * 0x100 + b2 as int * 0x1_0000 + b3 as int * 0x100_0000;
    assert value / 0x100 == b1 as int + b2 as int * 0x100 + b3 as int * 0x1_0000;
    assert value / 0x1_0000 == b2 as int + b3 as int * 0x100;
  }

  method StorePair(m: array<Byte>, at: nat, value: Word, ghost pattern: Half)
    requires at + 4 <= m.Length && value as int == pattern as int + pattern * 0x1_0000
    modifies m
    ensures m[..] == Filled16(old(m[..]), at, 2, pattern)
  {
    PairBytes(pattern);
    m[at] := value % 0x100;
    m[at + 1] := value / 0x100 % 0x100;
    m[at + 2] := value / 0x1_0000 % 0x100;
    m[at + 3] := value / 0x100_0000;
  }

  lemma FilledOn(m: Bytes, d: nat, n: nat, k: nat, pattern: Half)
    ensures Filled16(Filled16(m, d, n, pattern), d + 2 * n, k, pattern) == Filled16(m, d, n + k, pattern)
  {
  }

  lemma FilledNothing(m: Bytes, d: nat, pattern: Half)
    ensures Filled16(m, d, 0, pattern) == m
  {
  }

  /** Align to a word with one half-word, then pairs, then what is left. */
  method Memset16(m: array<Byte>, dst: nat, pattern: Half, count: int)
    requires dst / 2 * 2 + 2 * Written16(dst, count) <= m.Length
    modifies m
    ensures m[..] == Filled16(old(m[..]), dst / 2 * 2, Written16(dst, count), pattern)
  {
    hide Filled16;
    ghost var before, start := m[..], dst / 2 * 2;
    var d, left := dst / 2 * 2, count;
    FilledNothing(before, start, pattern);
    ghost var n: nat := 0;
    if d / 2 % 2 == 1 {
      StoreHalf(m, d, pattern);
      FilledOn(before, start, 0, 1, pattern);
      d, left, n := d + 2, left - 1, 1;
    }
    PairBytes(pattern);
    var pair: Word := pattern as int + pattern * 0x1_0000;
    while left >= 2
      invariant d == start + 2 * n && left == count - n && (count > 0 ==> left >= 0) && (count <= 0 ==> n <= 1)
      invariant n == 0 ==> dst / 2 % 2 == 0
      invariant count <= 0 ==> n == dst / 2 % 2
      invariant m[..] == Filled16(before, start, n, pattern)
    {
      StorePair(m, d, pair, pattern);
      FilledOn(before, start, n, 2, pattern);
      d, left, n := d + 4, left - 2, n + 2;
    }
    if left != 0 {
      StoreHalf(m, d, pattern);
      FilledOn(before, start, n, 1, pattern);
      n := n + 1;
    }
    assert n == Written16(dst, count);
  }

  // ----- copying a row

  function HalfAt(m: Bytes, a: nat): int
    requires a + 2 <= |m|
  {
    m[a] as int + 0x100 * m[a + 1] as int
  }

  /** Memory after the first n bytes of a row have been copied one after the other, as an ascending memcpy does. */
  function CopiedUp(m: Bytes, d: nat, s: nat, n: nat): (r: Bytes)
    requires d + n <= |m| && s + n <= |m|
    ensures |r| == |m|
  {
    if n == 0 then m
    else
      var r := CopiedUp(m, d, s, n - 1);
      r[d + n - 1 := r[s + n - 1]]
  }

  /** Memory after the first n half-words of a row have been copied one after the other, but for those equal to key. */
  function TransparentUp(m: Bytes, d: nat, s: nat, n: nat, key: int): (r: Bytes)
    requires d + 2 * n <= |m| && s + 2 * n <= |m|
    ensures |r| == |m|
  {
    if n == 0 then m
    else
      var r := TransparentUp(m, d, s, n - 1, key);
      var from, to := s + 2 * n - 2, d + 2 * n - 2;
      if HalfAt(r, from) == key then r else r[to := r[from]][to + 1 := r[from + 1]]
  }

  /** The row of `blitter_do`'s copy branch: plain when there is no key. */
  function RowCopied(m: Bytes, d: nat, s: nat, bytes: nat, key: Option<Half>): (r: Bytes)
    requires d + bytes <= |m| && s + bytes <= |m|
    ensures |r| == |m|
  {
    if key.None? then CopiedUp(m, d, s, bytes) else TransparentUp(m, d, s, bytes / 2, key.value)
  }

  /** Byte i of a row as a copy from a snapshot gives it: the source's, unless its half-word has the key. */
  function SnapshotByte(m: Bytes, d: nat, s: nat, i: nat, key: Option<Half>): Byte
    requires d + i < |m| && s + i < |m|
  {
    if Keyed(m, s + i / 2 * 2, key) then m[d + i] else m[s + i]
  }

  predicate Keyed(m: Bytes, a: nat, key: Option<Half>) {
    key.Some? && a + 2 <= |m| && HalfAt(m, a) == key.value
  }

  lemma {:induction false} CopiedUpAt(m: Bytes, d: nat, s: nat, n: nat, a: nat)
    requires (d <= s || s + n <= d) && d + n <= |m| && s + n <= |m| && a < |m|
    ensures CopiedUp(m, d, s, n)[a] == if d <= a < d + n then m[s + (a - d)] else m[a]
  {
    if n > 0 {
      CopiedUpAt(m, d, s, n - 1, a);
      CopiedUpAt(m, d, s, n - 1, s + n - 1);
    }
  }

  lemma {:induction false} TransparentUpAt(m: Bytes, d: nat, s: nat, n: nat, key: Half, a: nat)
    requires (d <= s || s + 2 * n <= d) && (s - d) % 2 == 0 && d + 2 * n <= |m| && s + 2 * n <= |m| && a < |m|
    ensures TransparentUp(m, d, s, n, key)[a]
         == if d <= a < d + 2 * n then SnapshotByte(m, d, s, a - d, Some(key)) else m[a]
  {
    hide TransparentUp;
    if n == 0 {
      TransparentNone(m, d, s, key);
    } else {
      TransparentOneMore(m, d, s, n - 1, key);
      TransparentUpAt(m, d, s, n - 1, key, a);
      TransparentUpAt(m, d, s, n - 1, key, s + 2 * n - 2);
      TransparentUpAt(m, d, s, n - 1, key, s + 2 * n - 1);
    }
  }

  /** A row copied in place from not below the destination, or from apart, is a row copied from a snapshot. */
  lemma RowFromSnapshot(m: Bytes, d: nat, s: nat, bytes: nat, key: Option<Half>, a: nat)
    requires (d <= s || s + bytes <= d) && d + bytes <= |m| && s + bytes <= |m| && a < |m|
    requires key.Some? ==> (s - d) % 2 == 0 && bytes % 2 == 0
    ensures RowCopied(m, d, s, bytes, key)[a] == if d <= a < d + bytes then SnapshotByte(m, d, s, a - d, key) else m[a]
  {
    if key.None? {
      CopiedUpAt(m, d, s, bytes, a);
    } else {
      TransparentUpAt(m, d, s, bytes / 2, key.value, a);
    }
  }

  // ----- rows

  /** One side of a blit: the first byte and the stride; half-word rows start at the even address below. */
  datatype Side = Side(base: nat, stride: int, even: bool) {
    function Row(y: nat): int {
      if even then (base + y * stride) / 2 * 2 else base + y * stride
    }
  }

  function Abs(x: int): nat { if x < 0 then -x else x }

  predicate Disjoint(a: int, b: int, bytes: nat) {
    a + bytes <= b || b + bytes <= a
  }

  /** Rows of this many bytes do not run into each other, upwards or downwards. */
  lemma RowsApart(side: Side, bytes: nat, y: nat, y': nat)
    requires bytes <= Abs(side.stride) && y < y' && (side.even ==> bytes % 2 == 0)
    ensures Disjoint(side.Row(y), side.Row(y'), bytes)
    ensures side.stride >= 0 ==> side.Row(y) + bytes <= side.Row(y')
  {
    var x, x' := side.base + y * side.stride, side.base + y' * side.stride;
    RowGap(side, y, y');
    if side.stride >= 0 { FloorApart(x, x', bytes); } else { FloorApart(x', x, bytes); }
  }

  lemma RowGap(side: Side, y: nat, y': nat)
    requires y < y'
    ensures
      var x, x' := side.base + y * side.stride, side.base + y' * side.stride;
      if side.stride >= 0 then x + side.stride <= x' else x' + Abs(side.stride) <= x
  {
    var up := Abs(side.stride);
    LowerProduct(up, y + 1, y');
    assert up * (y + 1) == up * y + up;
    if side.stride < 0 {
      assert y * side.stride == -(up * y) && y' * side.stride == -(up * y');
    }
  }

  lemma FloorApart(x: int, x': int, bytes: nat)
    requires x + bytes <= x'
    ensures bytes % 2 == 0 ==> x / 2 * 2 + bytes <= x' / 2 * 2
  {
  }

  predicate RowsWithin(side: Side, h: nat, bytes: nat, low: int, high: int) {
    forall y | 0 <= y < h :: low <= side.Row(y) && side.Row(y) + bytes <= high
  }

  predicate RowsInside(side: Side, h: nat, bytes: nat, size: nat) {
    RowsWithin(side, h, bytes, 0, size)
  }

  predicate RowWithin(side: Side, y: nat, bytes: nat, low: int, high: int) {
    low <= side.Row(y) && side.Row(y) + bytes <= high
  }

  /** Whatever the stride, all rows lie within bounds if the first and the last one do. */
  lemma FirstAndLast(side: Side, h: nat, bytes: nat, low: int, high: int)
    ensures RowsWithin(side, h, bytes, low, high)
      <==> h == 0 || (RowWithin(side, 0, bytes, low, high) && RowWithin(side, h - 1, bytes, low, high))
  {
    hide Side.Row;
    if h > 0 && RowWithin(side, 0, bytes, low, high) && RowWithin(side, h - 1, bytes, low, high) {
      forall y | 0 <= y < h ensures low <= side.Row(y) && side.Row(y) + bytes <= high {
        Between(side, y, h - 1);
      }
    }
  }

  lemma Between(side: Side, y: nat, last: nat)
    requires y <= last
    ensures side.Row(0) <= side.Row(y) <= side.Row(last) || side.Row(last) <= side.Row(y) <= side.Row(0)
  {
    var up := Abs(side.stride);
    LowerProduct(up, y, last);
    if side.stride < 0 {
      assert y * side.stride == -(up * y) && last * side.stride == -(up * last);
    }
    var x, z := side.base + y * side.stride, side.base + last * side.stride;
    if side.stride >= 0 {
      FloorApart(side.base, x, 0);
      FloorApart(x, z, 0);
    } else {
      FloorApart(x, side.base, 0);
      FloorApart(z, x, 0);
    }
  }

  /** Memory after the first h rows have been copied in place, top row first. */
  ghost function RowsCopied(m: Bytes, to: Side, from: Side, h: nat, bytes: nat, key: Option<Half>): (r: Bytes)
    requires RowsInside(to, h, bytes, |m|) && RowsInside(from, h, bytes, |m|)
    ensures |r| == |m|
  {
    if h == 0 then m
    else RowCopied(RowsCopied(m, to, from, h - 1, bytes, key), to.Row(h - 1), from.Row(h - 1), bytes, key)
  }

  /** No row is read after an earlier one has been written over it, nor overwrites what it has yet to read. */
  predicate Untangled(to: Side, from: Side, h: nat, bytes: nat) {
    && (forall y, y' | 0 <= y' < y < h :: Disjoint(to.Row(y'), from.Row(y), bytes))
    && (forall y | 0 <= y < h :: to.Row(y) <= from.Row(y) || from.Row(y) + bytes <= to.Row(y))
  }

  predicate SameParity(to: Side, from: Side, bytes: nat, key: Option<Half>) {
    key.Some? ==> to.even && from.even && bytes % 2 == 0
  }

  /** Blits towards lower addresses, or with no wider a stride there, never tangle. */
  lemma DownwardIsUntangled(to: Side, from: Side, h: nat, bytes: nat)
    requires to.base <= from.base && to.stride <= from.stride && to.even == from.even
    requires bytes <= to.stride && (to.even ==> bytes % 2 == 0)
    ensures Untangled(to, from, h, bytes)
  {
    forall y ensures to.Row(y) <= from.Row(y) {
      LowerRow(to, from, y);
    }
    forall y, y' | 0 <= y' < y < h ensures Disjoint(to.Row(y'), from.Row(y), bytes) {
      RowsApart(to, bytes, y', y);
      LowerRow(to, from, y);
    }
  }

  lemma LowerRow(to: Side, from: Side, y: nat)
    requires to.base <= from.base && to.stride <= from.stride && to.even == from.even
    ensures to.Row(y) <= from.Row(y)
  {
    LowerProduct(y, to.stride, from.stride);
    FloorApart(to.base + y * to.stride, from.base + y * from.stride, 0);
  }

  /** Blits between areas that have no byte in common never tangle either. */
  lemma ApartIsUntangled(to: Side, from: Side, h: nat, bytes: nat)
    requires forall y, y' | 0 <= y < h && 0 <= y' < h :: Disjoint(to.Row(y'), from.Row(y), bytes)
    ensures Untangled(to, from, h, bytes)
  {
    forall y | 0 <= y < h ensures to.Row(y) <= from.Row(y) || from.Row(y) + bytes <= to.Row(y) {
      assert Disjoint(to.Row(y), from.Row(y), bytes);
    }
  }

  /** Every byte of every row comes from the memory as it was before the blit. */
  lemma {:induction false} RowsFromSnapshot(
    m: Bytes, to: Side, from: Side, h: nat, bytes: nat, key: Option<Half>, y: nat, i: nat)
    requires RowsInside(to, h, bytes, |m|) && RowsInside(from, h, bytes, |m|) && Untangled(to, from, h, bytes)
    requires SameParity(to, from, bytes, key) && bytes <= Abs(to.stride) && (to.even ==> bytes % 2 == 0)
    requires y < h && i < bytes
    ensures to.Row(y) + i < |m| && from.Row(y) + i < |m|
    ensures RowsCopied(m, to, from, h, bytes, key)[to.Row(y) + i] == SnapshotByte(m, to.Row(y), from.Row(y), i, key)
  {
    hide RowCopied, Side.Row, SnapshotByte, SameParity;
    assert key.Some? ==> bytes % 2 == 0 by { ParityBytes(to, from, bytes, key); }
    if y < h - 1 {
      var r := RowsCopied(m, to, from, h - 1, bytes, key);
      assert RowParity(to, from, h - 1, bytes, key) by { RowsEven(to, from, h - 1, bytes, key); }
      RowFromSnapshot(r, to.Row(h - 1), from.Row(h - 1), bytes, key, to.Row(y) + i);
      RowsApart(to, bytes, y, h - 1);
      RowsFromSnapshot(m, to, from, h - 1, bytes, key, y, i);
    } else {
      LastRow(m, to, from, y, bytes, key, i);
    }
  }

  lemma ParityBytes(to: Side, from: Side, bytes: nat, key: Option<Half>)
    requires SameParity(to, from, bytes, key)
    ensures key.Some? ==> bytes % 2 == 0
  {
  }

  lemma {:induction false} LastRow(m: Bytes, to: Side, from: Side, y: nat, bytes: nat, key: Option<Half>, i: nat)
    requires RowsInside(to, y + 1, bytes, |m|) && RowsInside(from, y + 1, bytes, |m|)
    requires Untangled(to, from, y + 1, bytes)
    requires SameParity(to, from, bytes, key) && bytes <= Abs(to.stride) && (to.even ==> bytes % 2 == 0) && i < bytes
    ensures to.Row(y) + i < |m| && from.Row(y) + i < |m|
    ensures RowsCopied(m, to, from, y + 1, bytes, key)[to.Row(y) + i] == SnapshotByte(m, to.Row(y), from.Row(y), i, key)
  {
    hide RowCopied, Side.Row, SnapshotByte, SameParity;
    var r := RowsCopied(m, to, from, y, bytes, key);
    var d, t := to.Row(y), from.Row(y);
    ParityBytes(to, from, bytes, key);
    RowsEven(to, from, y, bytes, key);
    assert d + bytes <= |m| && t + bytes <= |m| && (d <= t || t + bytes <= d);
    SnapshotStays(m, to, from, y, bytes, key, i);
    assert RowsCopied(m, to, from, y + 1, bytes, key) == RowCopied(r, d, t, bytes, key);
    RowFromSnapshot(r, d, t, bytes, key, d + i);
  }

  /** Row y looks to its own copy as it did before the blit. */
  lemma {:induction false} SnapshotStays(m: Bytes, to: Side, from: Side, y: nat, bytes: nat, key: Option<Half>, i: nat)
    requires RowsInside(to, y + 1, bytes, |m|) && RowsInside(from, y + 1, bytes, |m|)
    requires Untangled(to, from, y + 1, bytes)
    requires SameParity(to, from, bytes, key) && bytes <= Abs(to.stride) && (to.even ==> bytes % 2 == 0) && i < bytes
    ensures to.Row(y) + i < |m| && from.Row(y) + i < |m|
    ensures SnapshotByte(RowsCopied(m, to, from, y, bytes, key), to.Row(y), from.Row(y), i, key)
         == SnapshotByte(m, to.Row(y), from.Row(y), i, key)
  {
    hide RowCopied, Side.Row, SameParity, RowsCopied;
    forall y' | 0 <= y' < y ensures !(to.Row(y') <= to.Row(y) + i < to.Row(y') + bytes) {
      RowsApart(to, bytes, y', y);
    }
    RowsLeave(m, to, from, y, bytes, key, to.Row(y) + i);
    SourceStays(m, to, from, y, bytes, key, i);
    if key.Some? {
      ParityBytes(to, from, bytes, key);
      EvenInside(i, bytes);
      SourceStays(m, to, from, y, bytes, key, i / 2 * 2);
      SourceStays(m, to, from, y, bytes, key, i / 2 * 2 + 1);
    }
  }

  lemma EvenInside(i: nat, bytes: nat)
    requires i < bytes && bytes % 2 == 0
    ensures i / 2 * 2 + 1 < bytes
  {
  }

  /** The earlier rows have not touched the source of row y. */
  lemma SourceStays(m: Bytes, to: Side, from: Side, y: nat, bytes: nat, key: Option<Half>, j: nat)
    requires RowsInside(to, y + 1, bytes, |m|) && RowsInside(from, y + 1, bytes, |m|)
    requires Untangled(to, from, y + 1, bytes)
    requires SameParity(to, from, bytes, key) && j < bytes
    ensures from.Row(y) + j < |m| && RowsCopied(m, to, from, y, bytes, key)[from.Row(y) + j] == m[from.Row(y) + j]
  {
    hide RowCopied, Side.Row;
    forall y' | 0 <= y' < y ensures !(to.Row(y') <= from.Row(y) + j < to.Row(y') + bytes) {
      assert Disjoint(to.Row(y'), from.Row(y), bytes);
    }
    RowsLeave(m, to, from, y, bytes, key, from.Row(y) + j);
  }

  predicate RowParity(to: Side, from: Side, y: nat, bytes: nat, key: Option<Half>) {
    key.Some? ==> (from.Row(y) - to.Row(y)) % 2 == 0 && bytes % 2 == 0
  }

  lemma RowsEven(to: Side, from: Side, y: nat, bytes: nat, key: Option<Half>)
    requires SameParity(to, from, bytes, key)
    ensures RowParity(to, from, y, bytes, key)
  {
  }

  /** Bytes outside the rows stay as they were. */
  lemma {:induction false} RowsLeave(m: Bytes, to: Side, from: Side, h: nat, bytes: nat, key: Option<Half>, a: nat)
    requires RowsInside(to, h, bytes, |m|) && RowsInside(from, h, bytes, |m|) && SameParity(to, from, bytes, key)
    requires (forall y | 0 <= y < h :: to.Row(y) <= from.Row(y) || from.Row(y) + bytes <= to.Row(y)) && a < |m|
    requires forall y | 0 <= y < h :: !(to.Row(y) <= a < to.Row(y) + bytes)
    ensures RowsCopied(m, to, from, h, bytes, key)[a] == m[a]
  {
    hide RowCopied, Side.Row;
    if h > 0 {
      RowsLeave(m, to, from, h - 1, bytes, key, a);
      assert RowParity(to, from, h - 1, bytes, key) by { RowsEven(to, from, h - 1, bytes, key); }
      RowFromSnapshot(RowsCopied(m, to, from, h - 1, bytes, key), to.Row(h - 1), from.Row(h - 1), bytes, key, a);
    }
  }

  /** Bytes a fill row may take: `memset16` on no pixels at all can still write two. */
  function FillBytes(w: nat, wide: bool): nat {
    if !wide then w else if w == 0 then 4 else 2 * w
  }

  function RowFilled(m: Bytes, to: Side, y: nat, w: nat, color: Half): (r: Bytes)
    ensures |r| == |m|
  {
    if to.even then Filled16(m, to.Row(y), Written16(to.base + y * to.stride, w), color)
    else Filled8(m, to.Row(y), w, color % 0x100)
  }

  ghost function RowsFilled(m: Bytes, to: Side, h: nat, w: nat, color: Half): (r: Bytes)
    ensures |r| == |m|
  {
    if h == 0 then m else RowFilled(RowsFilled(m, to, h - 1, w, color), to, h - 1, w, color)
  }

  function FilledRowBytes(to: Side, y: nat, w: nat): (n: nat)
    ensures n <= FillBytes(w, to.even) && (w > 0 ==> n == FillBytes(w, to.even))
  {
    if to.even then 2 * Written16(to.base + y * to.stride, w) else w
  }

  lemma RowFilledAt(m: Bytes, to: Side, y: nat, w: nat, color: Half, a: nat)
    requires a < |m|
    ensures RowFilled(m, to, y, w, color)[a]
         == if to.Row(y) <= a < to.Row(y) + FilledRowBytes(to, y, w)
            then (if to.even && (a - to.Row(y)) % 2 == 1 then color / 0x100 else color % 0x100) else m[a]
  {
    hide Side.Row, Written16;
  }

  lemma SameHalf(side: Side, y: nat, y': nat, i: nat)
    ensures side.even ==> (side.Row(y) + i - side.Row(y')) % 2 == i % 2
  {
  }

  lemma LastRowFilled(m: Bytes, to: Side, h: nat, w: nat, color: Half)
    requires h > 0
    ensures RowsFilled(m, to, h, w, color) == RowFilled(RowsFilled(m, to, h - 1, w, color), to, h - 1, w, color)
  {
  }

  /** Every byte of every filled row has its half of the color: rows that overlap agree. */
  lemma {:induction false} RowsFilledAt(m: Bytes, to: Side, h: nat, w: nat, color: Half, y: nat, i: nat)
    requires y < h && i < FilledRowBytes(to, y, w) && 0 <= to.Row(y) + i < |m|
    ensures RowsFilled(m, to, h, w, color)[to.Row(y) + i]
         == if to.even && i % 2 == 1 then color / 0x100 else color % 0x100
  {
    hide RowFilled, Side.Row, FilledRowBytes, RowsFilled;
    LastRowFilled(m, to, h, w, color);
    RowFilledAt(RowsFilled(m, to, h - 1, w, color), to, h - 1, w, color, to.Row(y) + i);
    SameHalf(to, y, h - 1, i);
    if y < h - 1 {
      RowsFilledAt(m, to, h - 1, w, color, y, i);
    }
  }

  /** Bytes outside the filled rows stay as they were. */
  lemma {:induction false} RowsFilledLeave(m: Bytes, to: Side, h: nat, w: nat, color: Half, a: nat)
    requires a < |m| && forall y | 0 <= y < h :: !(to.Row(y) <= a < to.Row(y) + FilledRowBytes(to, y, w))
    ensures RowsFilled(m, to, h, w, color)[a] == m[a]
  {
    hide RowFilled, Side.Row, FilledRowBytes;
    if h > 0 {
      RowsFilledLeave(m, to, h - 1, w, color, a);
      RowFilledAt(RowsFilled(m, to, h - 1, w, color), to, h - 1, w, color, a);
    }
  }

  // ----- the row loops

  /** `blt_tr`: half-words one after the other, but for those equal to the key. */
  method BltTr(m: array<Byte>, dst: nat, src: nat, key: Half, w: nat)
    requires dst / 2 * 2 + 2 * w <= m.Length && src / 2 * 2 + 2 * w <= m.Length
    modifies m
    ensures m[..] == TransparentUp(old(m[..]), dst / 2 * 2, src / 2 * 2, w, key)
  {
    hide TransparentUp;
    var d, s, left := dst / 2 * 2, src / 2 * 2, w;
    TransparentNone(m[..], d, s, key);
    while left > 0
      invariant 0 <= left <= w && d == dst / 2 * 2 + 2 * (w - left) && s == src / 2 * 2 + 2 * (w - left)
      invariant m[..] == TransparentUp(old(m[..]), dst / 2 * 2, src / 2 * 2, w - left, key)
    {
      TransparentOneMore(old(m[..]), dst / 2 * 2, src / 2 * 2, w - left, key);
      ghost var r := m[..];
      var low, high := m[s], m[s + 1];
      assert HalfAt(r, s) == low as int + 0x100 * high as int;
      if low as int + 0x100 * high as int != key {
        m[d] := low;
        m[d + 1] := high;
        assert m[..] == r[d := r[s]][d + 1 := r[s + 1]];
      }
      d, s, left := d + 2, s + 2, left - 1;
    }
  }

  lemma TransparentNone(m: Bytes, d: nat, s: nat, key: int)
    requires d <= |m| && s <= |m|
    ensures TransparentUp(m, d, s, 0, key) == m
  {
  }

  lemma TransparentOneMore(m: Bytes, d: nat, s: nat, n: nat, key: int)
    requires d + 2 * n + 2 <= |m| && s + 2 * n + 2 <= |m|
    ensures var r := TransparentUp(m, d, s, n, key); var from, to := s + 2 * n, d + 2 * n;
      TransparentUp(m, d, s, n + 1, key)
        == if HalfAt(r, from) == key then r else r[to := r[from]][to + 1 := r[from + 1]]
  {
  }

  /** memcpy, bytes in ascending order. */
  method Memcpy(m: array<Byte>, dst: nat, src: nat, n: nat)
    requires dst + n <= m.Length && src + n <= m.Length
    modifies m
    ensures m[..] == CopiedUp(old(m[..]), dst, src, n)
  {
    var i := 0;
    while i < n
      invariant 0 <= i <= n
      invariant m[..] == CopiedUp(old(m[..]), dst, src, i)
    {
      m[dst + i] := m[src + i];
      i := i + 1;
    }
  }

  method Memset(m: array<Byte>, dst: nat, value: Byte, n: nat)
    requires dst + n <= m.Length
    modifies m
    ensures m[..] == Filled8(old(m[..]), dst, n, value)
  {
    var i := 0;
    while i < n
      invariant 0 <= i <= n
      invariant m[..] == Filled8(old(m[..]), dst, i, value)
    {
      m[dst + i] := value;
      i := i + 1;
    }
  }

  /** The two copy loops. */
  method CopyRows(m: array<Byte>, to: Side, from: Side, h: int, bytes: nat, key: Option<Half>)
    requires RowsInside(to, Max(h, 0), bytes, m.Length) && RowsInside(from, Max(h, 0), bytes, m.Length)
    requires to.even == from.even == key.Some? && (key.Some? ==> bytes % 2 == 0)
    modifies m
    ensures m[..] == RowsCopied(old(m[..]), to, from, Max(h, 0), bytes, key)
  {
    hide CopiedUp, TransparentUp;
    var dst, src, y := to.base, from.base, 0;
    while y < h
      invariant 0 <= y <= Max(h, 0) && dst == to.base + y * to.stride && src == from.base + y * from.stride
      invariant m[..] == RowsCopied(old(m[..]), to, from, y, bytes, key)
    {
      assert to.Row(y) + bytes <= m.Length && from.Row(y) + bytes <= m.Length;
      if key.Some? { BltTr(m, dst, src, key.value, bytes / 2); } else { Memcpy(m, dst, src, bytes); }
      NextRow(to, y);
      NextRow(from, y);
      dst, src, y := dst + to.stride, src + from.stride, y + 1;
    }
  }

  lemma NextRow(side: Side, y: nat)
    ensures side.base + (y + 1) * side.stride == side.base + y * side.stride + side.stride
  {
  }

  /** The two fill loops. */
  method FillRows(m: array<Byte>, to: Side, h: int, w: nat, color: Half)
    requires RowsInside(to, Max(h, 0), FillBytes(w, to.even), m.Length)
    modifies m
    ensures m[..] == RowsFilled(old(m[..]), to, Max(h, 0), w, color)
  {
    hide Filled16, Filled8;
    var dst, y := to.base, 0;
    while y < h
      invariant 0 <= y <= Max(h, 0) && dst == to.base + y * to.stride
      invariant m[..] == RowsFilled(old(m[..]), to, y, w, color)
    {
      assert to.Row(y) + FillBytes(w, to.even) <= m.Length;
      if to.even { Memset16(m, dst, color, w); } else { Memset(m, dst, color % 0x100, w); }
      NextRow(to, y);
      dst, y := dst + to.stride, y + 1;
    }
  }

  // ----- the blit itself

  datatype Registers = Registers(
    dstctrl: Word, dstaddr: Word, dststride: Word, srcctrl: Word, srcaddr: Word, srcstride: Word,
    patbackcolor: Word, size: Word, ctrl: Word)
  {
    function Width(): nat { size % 0x800 }
    function Height(): nat { size / 0x1_0000 % 0x800 }
    predicate Wide() { Bit(dstctrl, 0x20) }
    predicate Copies() { Bit(srcctrl, 0x80) }
    function Target(): Word { Place(dstaddr, dstctrl) }
    function Origin(): Word { Place(srcaddr, srcctrl) }

    function Key(): Option<Half> {
      if Wide() && Bit(ctrl, 0x800) then Some(ctrl / 0x1_0000) else None
    }

    function RowBytes(): nat {
      if Copies() then (if Wide() then 2 * Width() else Width()) else FillBytes(Width(), Wide())
    }

    function TargetStride(): int { Signed(dststride) }
    function OriginStride(): int { Signed(srcstride) }

    /** The products of stride and height that are computed are ints. */
    predicate Defined(at: HostBase) {
      var d, s := Upper(Target()), Upper(Origin());
      if Copies() then
        Bit(srcctrl, 0x100) && s.Some? ==>
          && IsInt(OriginStride() * Height())
          && (d.Some? ==> IsInt(TargetStride() * Clip(at, at as int + s.value, OriginStride(), Height())))
      else
        d.Some? ==> IsInt(TargetStride() * Height())
    }

    /** Rows go up and do not run into each other, and the rectangle has no more bytes than an int counts. */
    predicate Regular() {
      && 0 < TargetStride() && RowBytes() <= TargetStride() && IsInt(TargetStride() * Height())
      && (Copies() ==> 0 < OriginStride() && RowBytes() <= OriginStride() && IsInt(OriginStride() * Height()))
    }
  }

  predicate IsInt(x: int) { -0x8000_0000 <= x < 0x8000_0000 }

  /** An address register, with the byte within the word taken from the control register. */
  function Place(addr: Word, ctrl: Word): Word {
    addr / 4 * 4 + ctrl % 0x20 / 8
  }

  /** `uppermem_lookup`: the offset in upper memory. */
  function Upper(addr: Word): (o: Option<nat>)
    ensures o.Some? ==> o.value < UPPER_SIZE
  {
    if addr / UPPER_SIZE == 1 then Some(addr as int - UPPER_SIZE) else None
  }

  function Min(a: int, b: int): int { if a <= b then a else b }

  function Max(a: int, b: int): int { if a <= b then b else a }

  /** How many rows of this stride fit from address p to the end of upper memory. */
  function Fitting(at: HostBase, p: int, stride: nat): int
    requires stride > 0
  {
    (at as int + UPPER_SIZE - p) / stride
  }

  datatype Job =
    | Fill(to: Side, h: nat, w: nat, color: Half)
    | Copy(to: Side, from: Side, h: nat, bytes: nat, key: Option<Half>)

  /** Where upper memory is mapped, so that its end is an address too. */
  type HostBase = w: Word | w as int + UPPER_SIZE < 0x1_0000_0000 witness 0

  predicate InUpper(at: HostBase, p: int) { at as int <= p < at as int + UPPER_SIZE }

  /** C's division of a number that is not negative. */
  function Quotient(a: nat, b: int): int
    requires b != 0
  {
    if b > 0 then a / b else -(a / -b)
  }

  /** The clip as the code makes it, on a 32-bit pointer p into upper memory, which is mapped at host address at. */
  function Clip(at: HostBase, p: int, stride: int, h: int): int
    requires InUpper(at, p)
  {
    var end := at as int + UPPER_SIZE;
    if stride != 0 && Wrap(p + stride * h) > end then Quotient(end - p, stride) else h
  }

  /** The declared blit: which rectangle is filled or copied, as high as the two clips leave it. */
  function Plan(at: HostBase, r: Registers): (j: Option<Job>)
  {
    var d, s := Upper(r.Target()), Upper(r.Origin());
    if r.Copies() then
      if !Bit(r.srcctrl, 0x100) || s.None? || d.None? then None
      else
        var key, p, q := r.Key(), at as int + d.value, at as int + s.value;
        var h := Clip(at, p, r.TargetStride(), Clip(at, q, r.OriginStride(), r.Height()));
        Some(Copy(Side(p, r.TargetStride(), key.Some?), Side(q, r.OriginStride(), key.Some?), Max(h, 0),
                  r.RowBytes(), key))
    else
      if d.None? then None
      else
        var p := at as int + d.value;
        var h := Clip(at, p, r.TargetStride(), r.Height());
        Some(Fill(Side(p, r.TargetStride(), r.Wide()), Max(h, 0), r.Width(), r.patbackcolor % 0x1_0000))
  }

  /** The declared blit touches memory below size only. */
  ghost predicate Fits(j: Job, size: nat) {
    match j
    case Fill(to, h, w, _) => RowsInside(to, h, FillBytes(w, to.even), size)
    case Copy(to, from, h, bytes, key) =>
      && RowsInside(to, h, bytes, size) && RowsInside(from, h, bytes, size)
      && to.even == from.even == key.Some? && (key.Some? ==> bytes % 2 == 0)
  }

  ghost function Done(m: Bytes, j: Job): (r: Bytes)
    requires Fits(j, |m|)
    ensures |r| == |m|
  {
    match j
    case Fill(to, h, w, color) => RowsFilled(m, to, h, w, color)
    case Copy(to, from, h, bytes, key) => RowsCopied(m, to, from, h, bytes, key)
  }

  /**
   Upwards, clipping leaves the rows that fit behind the pointer, and never more, exactly if the pointer behind the
   unclipped rows does not wrap around: if it does, nothing is clipped.
   */
  lemma ClippedIsMin(at: HostBase, p: int, stride: int, h: nat)
    requires InUpper(at, p) && 0 < stride && IsInt(stride * h)
    ensures Clip(at, p, stride, h) == Min(h, Fitting(at, p, stride)) <==> p + stride * h < 0x1_0000_0000
  {
    var room, end := at as int + UPPER_SIZE - p, p + stride * h;
    var q := room / stride;
    assert room == q * stride + room % stride;
    assert h * stride == stride * h;
    if h > q { ProductOrder(q, h, stride); }
    if h < q { ProductOrder(h, q, stride); }
    if end < 0x1_0000_0000 {
      assert Wrap(end) == end;
    } else {
      assert Wrap(end) == end - 0x1_0000_0000 <= at as int + UPPER_SIZE;
    }
  }

  /** A pointer that wraps around: 16 rows fit, and all 767 are left. */
  lemma WrappedIsNotClipped()
    ensures var at: HostBase := 0xb000_0000; Fitting(at, at, 0x20_0000) == 16 && Clip(at, at, 0x20_0000, 767) == 767
  {
  }

  /**
   Downwards all rows are left, unless the pointer passes below address zero and wraps around to behind upper
   memory: then none is.
   */
  lemma ClippedDownwards(at: HostBase, p: int, stride: int, h: nat)
    requires InUpper(at, p) && stride < 0 && IsInt(stride * h) && h > 0
    ensures
      var end := p + stride * h;
      var passes := end < 0 && end + 0x1_0000_0000 > at as int + UPPER_SIZE;
      if passes then Clip(at, p, stride, h) <= 0 else Clip(at, p, stride, h) == h
  {
    var end := p + stride * h;
    assert stride * h <= 0 by { LowerProduct(-stride, 0, h); }
    if end < 0 { WrapPeriod(end, 1); }
  }

  lemma RowsFit(at: HostBase, side: Side, h: nat, bytes: nat)
    requires InUpper(at, side.base) && 0 < side.stride && bytes <= side.stride
    requires h <= Fitting(at, side.base, side.stride)
    ensures RowsWithin(side, h, bytes, at as int / 2 * 2, at as int + UPPER_SIZE)
  {
    hide Side.Row, RowsWithin;
    FirstAndLast(side, h, bytes, at as int / 2 * 2, at as int + UPPER_SIZE);
    if h > 0 {
      LastEnds(at as int + UPPER_SIZE - side.base, side.stride, h);
      RowPlace(side, 0, at);
      RowPlace(side, h - 1, at);
    }
  }

  lemma LastEnds(room: nat, stride: nat, h: nat)
    requires 0 < stride && 0 < h <= room / stride
    ensures 0 <= (h - 1) * stride && stride <= (h - 1) * stride + stride <= room
  {
    var q := room / stride;
    assert room == q * stride + room % stride;
    LowerProduct(stride, h, q);
    LowerProduct(stride, 0, h - 1);
    assert (h - 1) * stride + stride == h * stride;
  }

  lemma RowPlace(side: Side, y: nat, low: int)
    requires side.base + y * side.stride >= low
    ensures low / 2 * 2 <= side.Row(y) <= side.base + y * side.stride
  {
  }

  /** Neither clip meets a pointer that wraps around. */
  predicate NoWrap(at: HostBase, r: Registers)
    requires r.Regular()
  {
    var d, s := Upper(r.Target()), Upper(r.Origin());
    if r.Copies() && s.Some? then
      var q := at as int + s.value;
      && q + r.OriginStride() * r.Height() < 0x1_0000_0000
      && (d.Some? ==>
            at as int + d.value + r.TargetStride() * Min(r.Height(), Fitting(at, q, r.OriginStride())) < 0x1_0000_0000)
    else
      d.Some? ==> at as int + d.value + r.TargetStride() * r.Height() < 0x1_0000_0000
  }

  /** All rows of a blit lie in upper memory. */
  predicate InsideUpper(at: HostBase, j: Job) {
    match j
    case Fill(to, h, w, _) => UpperRows(at, to, h, FillBytes(w, to.even))
    case Copy(to, from, h, bytes, key) => UpperRows(at, to, h, bytes) && UpperRows(at, from, h, bytes)
  }

  predicate UpperRows(at: HostBase, side: Side, h: nat, bytes: nat) {
    RowsWithin(side, h, bytes, at as int / 2 * 2, at as int + UPPER_SIZE)
  }

  /** Without such pointers, blits whose rows do not run into each other stay in upper memory, clipped to what fits. */
  lemma PlanFits(at: HostBase, r: Registers)
    requires r.Regular() && NoWrap(at, r) && Plan(at, r).Some?
    ensures InsideUpper(at, Plan(at, r).value)
    ensures match Plan(at, r).value
      case Fill(to, h, _, _) => h == Min(r.Height(), Fitting(at, to.base, to.stride))
      case Copy(to, from, h, _, _) =>
        h == Min(Min(r.Height(), Fitting(at, from.base, from.stride)), Fitting(at, to.base, to.stride))
  {
    hide Plan, Fitting, Clip, RowsWithin, Min, FillBytes, NoWrap, IsInt;
    hide Registers.Copies, Registers.RowBytes, Registers.Height, Registers.Defined;
    PlanShape(at, r);
    match Plan(at, r).value
    case Fill(to, h, w, _) =>
      FitsOneWay(at, to, r.Height(), FillBytes(w, to.even));
    case Copy(to, from, h, bytes, _) =>
      var h1 := Min(r.Height(), Fitting(at, from.base, from.stride));
      FitsOneWay(at, from, r.Height(), bytes);
      SmallerInt(to.stride, h1, r.Height());
      FitsOneWay(at, to, h1, bytes);
      FewerWithin(at, from, h, h1, bytes);
  }

  /** A blit in upper memory is one that `BlitterDo` can make, wherever host memory ends behind that. */
  lemma InsideFits(at: HostBase, r: Registers, size: nat)
    requires Plan(at, r).Some? && InsideUpper(at, Plan(at, r).value) && at as int + UPPER_SIZE <= size
    ensures Fits(Plan(at, r).value, size)
  {
    hide Upper, Clip, Side.Row, Max, Bit, Signed;
  }

  /** Nor does a product that is computed for it overflow. */
  lemma RegularIsDefined(at: HostBase, r: Registers)
    requires r.Regular() && NoWrap(at, r)
    ensures r.Defined(at)
  {
    hide Fitting, Clip, Min, IsInt, Bit, Signed, Registers.Height, Registers.RowBytes, Place;
    if r.Copies() && Upper(r.Origin()).Some? && Upper(r.Target()).Some? {
      var q := at as int + Upper(r.Origin()).value;
      ClippedIsMin(at, q, r.OriginStride(), r.Height());
      SmallerMin(at, q, r.OriginStride(), r.Height());
      SmallerInt(r.TargetStride(), Min(r.Height(), Fitting(at, q, r.OriginStride())), r.Height());
    }
  }

  lemma SmallerMin(at: HostBase, p: int, stride: nat, h: nat)
    requires InUpper(at, p) && stride > 0
    ensures 0 <= Min(h, Fitting(at, p, stride)) <= h
  {
  }

  lemma SmallerInt(a: nat, x: int, y: int)
    requires 0 <= x <= y && IsInt(a * y)
    ensures IsInt(a * x)
  {
    LowerProduct(a, x, y);
  }

  /** The parts of a planned blit, and the pointers that do not wrap around. */
  lemma PlanShape(at: HostBase, r: Registers)
    requires r.Regular() && NoWrap(at, r) && Plan(at, r).Some?
    ensures match Plan(at, r).value
      case Fill(to, h, w, _) =>
        && !r.Copies() && InUpper(at, to.base) && to.stride == r.TargetStride()
        && h == Max(Clip(at, to.base, to.stride, r.Height()), 0)
        && to.base + to.stride * r.Height() < 0x1_0000_0000 && FillBytes(w, to.even) == r.RowBytes()
      case Copy(to, from, h, bytes, key) =>
        && r.Copies() && InUpper(at, to.base) && InUpper(at, from.base) && bytes == r.RowBytes()
        && to.stride == r.TargetStride() && from.stride == r.OriginStride()
        && h == Max(Clip(at, to.base, to.stride, Clip(at, from.base, from.stride, r.Height())), 0)
        && from.base + from.stride * r.Height() < 0x1_0000_0000
        && to.base + to.stride * Min(r.Height(), Fitting(at, from.base, from.stride)) < 0x1_0000_0000
  {
    hide Bit, Fitting, Clip, Min, Max, IsInt, FillBytes, Signed;
    hide Registers.Height, Registers.Width, Registers.Wide, Registers.Target, Registers.Origin, Registers.Key;
  }

  /** One clip and what it leaves. */
  lemma FitsOneWay(at: HostBase, side: Side, h: int, bytes: nat)
    requires InUpper(at, side.base) && 0 < side.stride && bytes <= side.stride && h >= 0 && IsInt(side.stride * h)
    requires side.base + side.stride * h < 0x1_0000_0000
    ensures var rows := Min(h, Fitting(at, side.base, side.stride));
      && 0 <= rows <= h && Clip(at, side.base, side.stride, h) == rows
      && UpperRows(at, side, rows, bytes)
  {
    hide Clip, RowsWithin;
    ClippedIsMin(at, side.base, side.stride, h);
    RowsFit(at, side, Min(h, Fitting(at, side.base, side.stride)), bytes);
  }

  lemma FewerWithin(at: HostBase, side: Side, h: nat, more: nat, bytes: nat)
    requires h <= more && UpperRows(at, side, more, bytes)
    ensures UpperRows(at, side, h, bytes)
  {
    hide Side.Row;
  }

  lemma LowerProduct(a: nat, x: int, y: int)
    requires x <= y
    ensures a * x <= a * y
  {
    if x < y && a > 0 { ProductOrder(x, y, a); }
  }

  /** Whether a blit of this size to this address asks for a refresh. */
  predicate ToScreen(w: nat, h: nat, screen: Word, addr: Word) {
    ((w == 320 && h == 240) || w * h >= 320 * 240 / 2) && screen <= addr < Plus(screen, 320 * 240 * 2)
  }

  /**
   `blitter_do`: false is the `bad_blit` exit; refresh tells whether the futex is set. The blit stores to wherever
   its pointers lead as it is clipped, and memory has to be there.
   */
  method BlitterDo(m: array<Byte>, at: HostBase, regs: Registers, screen: Word) returns (ok: bool, refresh: bool)
    requires regs.Defined(at)
    requires Plan(at, regs).Some? ==> Fits(Plan(at, regs).value, m.Length)
    modifies m
    ensures ok == Plan(at, regs).Some?
    ensures ok ==> m[..] == Done(old(m[..]), Plan(at, regs).value)
    ensures !ok ==> m[..] == old(m[..])
    ensures refresh == (ok && ToScreen(regs.Width(), regs.Height(), screen, regs.Target()))
  {
    hide Place, Bit, RowsCopied, RowsFilled, RowsWithin, Wrap, Clip, Signed;
    var w, h := regs.Width(), regs.Height();
    var sstrd, dstrd := regs.OriginStride(), regs.TargetStride();
    var addr := regs.Target();
    refresh := ToScreen(w, h, screen, addr);
    var dst := Upper(addr);
    var src: Option<nat> := None;
    if regs.Copies() {
      if !Bit(regs.srcctrl, 0x100) { return false, false; }
      src := Upper(regs.Origin());
      if src.None? { return false, false; }
      h := ClipRows(at, at as int + src.value, sstrd, h);
    }
    if dst.None? { return false, false; }
    h := ClipRows(at, at as int + dst.value, dstrd, h);
    ok := true;
    if src.Some? {
      var even := regs.Key().Some?;
      var to, from := Side(at as int + dst.value, dstrd, even), Side(at as int + src.value, sstrd, even);
      CopyRows(m, to, from, h, regs.RowBytes(), regs.Key());
    } else {
      FillRows(m, Side(at as int + dst.value, dstrd, regs.Wide()), h, w, regs.patbackcolor % 0x1_0000);
    }
  }

  /** One clip; a pointer into upper memory is never behind its end, so a stride of zero does not divide. */
  method ClipRows(at: HostBase, p: int, stride: int, h: int) returns (rows: int)
    requires InUpper(at, p)
    ensures rows == Clip(at, p, stride, h)
  {
    var behind, end := Wrap(p + stride * h), at as int + UPPER_SIZE;
    rows := h;
    if behind > end {
      rows := Quotient(end - p, stride);
    }
  }
}
