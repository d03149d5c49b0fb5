/**
 The two hand-written kernels that turn a picture by 90 degrees while copying it to the Wiz screen. They work on
 whole words, four rows at a time, with both loop counts packed into lr. The picture is 4a pixels wide and 4b high.
 */
module Rotation {
  import opened Words

  // ----- rows and columns in one sequence

  /** Place col of row row, with n places to a row. */
  function Spot(n: nat, col: nat, row: nat): nat {
    row * n + col
  }

  function Area(n: nat, rows: nat): nat {
    rows * n
  }

  lemma SpotBound(n: nat, col: nat, row: nat, rows: nat)
    requires col < n && row < rows
    ensures Spot(n, col, row) < Area(n, rows)
  {
    ProductOrder(row, rows, n);
  }

  lemma SpotParts(n: nat, col: nat, row: nat)
    requires col < n
    ensures Spot(n, col, row) / n == row && Spot(n, col, row) % n == col
  {
    DivUnique(row * n + col, n, row, col);
  }

  lemma SpotSplit(n: nat, k: nat, rows: nat)
    requires k < Area(n, rows)
    ensures n > 0 && k / n < rows && k % n < n && Spot(n, k % n, k / n) == k
  {
    var q := k / n;
    assert k == q * n + k % n;
    if q > rows { ProductOrder(rows, q, n); }
  }

  /** Where a place is when each word holds u of them. */
  lemma SpotScaled(u: nat, n: nat, col: nat, row: nat)
    requires u > 0
    ensures Spot(u * n, col, row) / u == Spot(n, col / u, row) && Spot(u * n, col, row) % u == col % u
  {
    var p := row * n;
    assert row * (u * n) == p * u;
    DivUnique(p * u + col, u, p + col / u, col % u);
  }

  lemma AreaScaled(u: nat, n: nat, rows: nat)
    ensures Area(u * n, rows) == u * Area(n, rows)
    ensures Area(n, rows) == Area(rows, n)
  {
  }

  lemma SpotUnique(n: nat, col: nat, row: nat, col': nat, row': nat)
    requires col < n && col' < n && Spot(n, col, row) == Spot(n, col', row')
    ensures col == col' && row == row'
  {
    SpotParts(n, col, row);
    SpotParts(n, col', row');
  }

  // ----- pictures

  /** The picture turned: pixel (x, y) of a w by h picture goes to place y of row w-1-x. */
  function Rotated<P>(p: seq<P>, w: nat, h: nat): (r: seq<P>)
    requires |p| == Area(w, h)
    ensures |r| == |p|
  {
    seq(|p|, k requires 0 <= k < |p| => RotatedInBounds(w, h, k); p[Spot(w, w - 1 - k / h, k % h)])
  }

  /** The turn the other way. */
  function RotatedBack<P>(p: seq<P>, w: nat, h: nat): (r: seq<P>)
    requires |p| == Area(w, h)
    ensures |r| == |p|
  {
    seq(|p|, k requires 0 <= k < |p| => BackInBounds(w, h, k); p[Spot(h, k / w, w - 1 - k % w)])
  }

  lemma RotatedInBounds(w: nat, h: nat, k: nat)
    requires k < Area(w, h)
    ensures h > 0 && k / h < w && k % h < h && Spot(w, w - 1 - k / h, k % h) < Area(w, h)
  {
    AreaScaled(1, w, h);
    SpotSplit(h, k, w);
    SpotBound(w, w - 1 - k / h, k % h, h);
    hide Spot, Area;
  }

  lemma BackInBounds(w: nat, h: nat, k: nat)
    requires k < Area(w, h)
    ensures w > 0 && k / w < h && k % w < w && Spot(h, k / w, w - 1 - k % w) < Area(w, h)
  {
    AreaScaled(1, w, h);
    SpotSplit(w, k, h);
    SpotBound(h, k / w, w - 1 - k % w, w);
    hide Spot, Area;
  }

  /** Where each pixel comes from. */
  lemma RotatedAt<P>(p: seq<P>, w: nat, h: nat, x: nat, y: nat)
    requires |p| == Area(w, h) && x < w && y < h
    ensures Spot(h, y, w - 1 - x) < |p| && Spot(w, x, y) < |p|
    ensures Rotated(p, w, h)[Spot(h, y, w - 1 - x)] == p[Spot(w, x, y)]
  {
    AreaScaled(1, w, h);
    SpotBound(h, y, w - 1 - x, w);
    SpotBound(w, x, y, h);
    SpotParts(h, y, w - 1 - x);
    hide Spot, Area;
  }

  lemma BackAt<P>(p: seq<P>, w: nat, h: nat, k: nat)
    requires |p| == Area(w, h) && k < |p|
    ensures RotatedBack(Rotated(p, w, h), w, h)[k] == p[k]
  {
    BackInBounds(w, h, k);
    SpotSplit(w, k, h);
    RotatedAt(p, w, h, k % w, k / w);
    hide Rotated, Spot, Area;
  }

  /** Turning back restores every picture. */
  lemma RotationInverts<P>(p: seq<P>, w: nat, h: nat)
    requires |p| == Area(w, h)
    ensures RotatedBack(Rotated(p, w, h), w, h) == p
  {
    var r := RotatedBack(Rotated(p, w, h), w, h);
    assert forall k | 0 <= k < |p| :: r[k] == p[k] by {
      forall k | 0 <= k < |p| ensures r[k] == p[k] { BackAt(p, w, h, k); }
    }
    hide *;
  }

  /** A picture that is right pixel by pixel is the rotated one. */
  lemma RotatedByPixels<P>(q: seq<P>, p: seq<P>, w: nat, h: nat)
    requires |q| == |p| == Area(w, h)
    requires forall x, y | 0 <= x < w && 0 <= y < h :: PixelRight(q, p, w, h, x, y)
    ensures q == Rotated(p, w, h)
  {
    forall k | 0 <= k < |p| ensures q[k] == Rotated(p, w, h)[k] {
      PixelOfPlace(q, p, w, h, k);
    }
    hide Rotated, PixelRight;
  }

  ghost predicate PixelRight<P>(q: seq<P>, p: seq<P>, w: nat, h: nat, x: nat, y: nat)
    requires |q| == |p| == Area(w, h) && x < w && y < h
  {
    RotatedAt(p, w, h, x, y);
    q[Spot(h, y, w - 1 - x)] == p[Spot(w, x, y)]
  }

  lemma PixelOfPlace<P>(q: seq<P>, p: seq<P>, w: nat, h: nat, k: nat)
    requires |q| == |p| == Area(w, h) && k < |p|
    requires forall x, y | 0 <= x < w && 0 <= y < h :: PixelRight(q, p, w, h, x, y)
    ensures q[k] == Rotated(p, w, h)[k]
  {
    hide Rotated, Spot, Area;
    RotatedInBounds(w, h, k);
    AreaScaled(1, w, h);
    SpotSplit(h, k, w);
    var x, y := w - 1 - k / h, k % h;
    RotatedAt(p, w, h, x, y);
    assert PixelRight(q, p, w, h, x, y);
    assert k == Spot(h, y, w - 1 - x);
  }

  // ----- columns of destination words

  /** The place of word m of column x, from the right, with n words to a column of a picture w wide. */
  function Cell(w: nat, n: nat, x: int, m: nat): int {
    (w - 1 - x) * n + m
  }

  ghost function At(dst: seq<bv32>, w: nat, n: nat, x: nat, m: nat): bv32
    requires |dst| == Area(n, w) && x < w && m < n
  {
    SpotBound(n, m, w - 1 - x, w);
    dst[Spot(n, m, w - 1 - x)]
  }

  lemma CellIsSpot(w: nat, n: nat, x: nat, m: nat)
    requires x < w && m < n
    ensures Cell(w, n, x, m) == Spot(n, m, w - 1 - x) < Area(n, w)
  {
    SpotBound(n, m, w - 1 - x, w);
  }

  lemma NextColumn(w: nat, n: nat, x: nat, m: nat)
    ensures Cell(w, n, x, m) - n == Cell(w, n, x + 1, m)
  {
  }

  /** The place in the destination of word m of column x. */
  function Index(w: nat, n: nat, x: nat, m: nat): nat
    requires x < w
  {
    Spot(n, m, w - 1 - x)
  }

  lemma IndexUnique(w: nat, n: nat, x: nat, m: nat, x': nat, m': nat)
    requires x < w && m < n && x' < w && m' < n && Index(w, n, x, m) == Index(w, n, x', m')
    ensures x == x' && m == m'
  {
    SpotUnique(n, m, w - 1 - x, m', w - 1 - x');
    hide Spot;
  }

  /** One store into the destination changes one word of one column, which must not have been written before. */
  method StoreWord(dst: array<bv32>, w: nat, n: nat, at: int, word: bv32, ghost x: nat, ghost m: nat,
                   ghost written: set<nat>) returns (ghost written': set<nat>)
    requires dst.Length == Area(n, w) && x < w && m < n && at == Cell(w, n, x, m)
    requires 0 <= at ==> at !in written
    modifies dst
    ensures Stored(old(dst[..]), dst[..], w, n, x, m, word)
    ensures 0 <= at && written' == written + {at}
  {
    hide Area, Spot, Cell;
    CellIsSpot(w, n, x, m);
    ghost var before := dst[..];
    dst[at] := word;
    written' := written + {at};
    forall x', m' | 0 <= x' < w && 0 <= m' < n
      ensures At(dst[..], w, n, x', m') == if x' == x && m' == m then word else At(before, w, n, x', m')
    {
      CellIsSpot(w, n, x', m');
      if Spot(n, m', w - 1 - x') == at { SpotUnique(n, m', w - 1 - x', m, w - 1 - x); }
    }
  }

  ghost predicate Stored(before: seq<bv32>, after: seq<bv32>, w: nat, n: nat, x: nat, m: nat, word: bv32)
    requires |before| == |after| == Area(n, w)
  {
    forall x', m' | 0 <= x' < w && 0 <= m' < n ::
      At(after, w, n, x', m') == if x' == x && m' == m then word else At(before, w, n, x', m')
  }

  /** Place m of column x has had its turn: it lies before done, or among the next step places of the first columns. */
  predicate Reached(x: nat, m: nat, done: nat, cols: nat, step: nat) {
    m < done || (m < done + step && x < cols)
  }

  /**
   The destination words the kernel has finished: those it has reached hold their targets, given as a function of
   column and place, and are exactly the ones that have been written.
   */
  ghost predicate Finished(dst: seq<bv32>, written: set<nat>, w: nat, n: nat, target: (nat, nat) -> bv32,
                           done: nat, cols: nat, step: nat)
    requires |dst| == Area(n, w)
  {
    && (forall k | k in written :: k < |dst|)
    && (forall x, m | 0 <= x < w && 0 <= m < n :: Index(w, n, x, m) in written <==> Reached(x, m, done, cols, step))
    && (forall x, m | 0 <= x < w && 0 <= m < n && Reached(x, m, done, cols, step) ::
          At(dst, w, n, x, m) == target(x, m))
  }

  /** The next word has not been written yet. */
  lemma NotWritten(dst: seq<bv32>, written: set<nat>, w: nat, n: nat, target: (nat, nat) -> bv32,
                   done: nat, cols: nat, step: nat, m: nat)
    requires |dst| == Area(n, w) && cols < w && done <= m < done + step && m < n
    requires Finished(dst, written, w, n, target, done, cols, step)
    ensures Cell(w, n, cols, m) == Index(w, n, cols, m) < |dst| && Index(w, n, cols, m) !in written
  {
    CellIsSpot(w, n, cols, m);
    assert !Reached(cols, m, done, cols, step);
    hide At, Area, Spot, Cell;
  }

  lemma OneFinished(before: seq<bv32>, after: seq<bv32>, written: set<nat>, w: nat, n: nat,
                    target: (nat, nat) -> bv32, done: nat, cols: nat)
    requires |before| == |after| == Area(n, w) && cols < w && done < n
    requires Finished(before, written, w, n, target, done, cols, 1)
    requires Stored(before, after, w, n, cols, done, target(cols, done))
    ensures Finished(after, written + {Index(w, n, cols, done)}, w, n, target, done, cols + 1, 1)
  {
    NotWritten(before, written, w, n, target, done, cols, 1, done);
    hide At, Area, Index, Cell;
    forall x, m | 0 <= x < w && 0 <= m < n && Index(w, n, x, m) == Index(w, n, cols, done)
      ensures x == cols && m == done
    {
      IndexUnique(w, n, x, m, cols, done);
    }
  }

  lemma TwoFinished(before: seq<bv32>, middle: seq<bv32>, after: seq<bv32>, written: set<nat>, w: nat, n: nat,
                    target: (nat, nat) -> bv32, done: nat, cols: nat)
    requires |before| == |middle| == |after| == Area(n, w) && cols < w && done + 1 < n
    requires Finished(before, written, w, n, target, done, cols, 2)
    requires Stored(before, middle, w, n, cols, done, target(cols, done))
    requires Stored(middle, after, w, n, cols, done + 1, target(cols, done + 1))
    ensures Finished(after, written + {Index(w, n, cols, done)} + {Index(w, n, cols, done + 1)}, w, n, target,
                     done, cols + 1, 2)
  {
    NotWritten(before, written, w, n, target, done, cols, 2, done);
    NotWritten(before, written, w, n, target, done, cols, 2, done + 1);
    hide At, Area, Index, Cell;
    forall x, m | 0 <= x < w && 0 <= m < n && Index(w, n, x, m) == Index(w, n, cols, done)
      ensures x == cols && m == done
    {
      IndexUnique(w, n, x, m, cols, done);
    }
    forall x, m | 0 <= x < w && 0 <= m < n && Index(w, n, x, m) == Index(w, n, cols, done + 1)
      ensures x == cols && m == done + 1
    {
      IndexUnique(w, n, x, m, cols, done + 1);
    }
  }

  lemma GroupFinished(
    dst: seq<bv32>, written: set<nat>, w: nat, n: nat, target: (nat, nat) -> bv32, done: nat, step: nat)
    requires |dst| == Area(n, w) && Finished(dst, written, w, n, target, done, w, step)
    ensures Finished(dst, written, w, n, target, done + step, 0, step)
  {
    hide At, Area, Index;
    assert forall x, m | 0 <= x < w && 0 <= m < n ::
        Reached(x, m, done + step, 0, step) <==> Reached(x, m, done, w, step);
    hide Reached;
  }

  /** In the end every word has been written. */
  lemma AllWritten(dst: seq<bv32>, written: set<nat>, w: nat, n: nat, target: (nat, nat) -> bv32, step: nat)
    requires |dst| == Area(n, w) && Finished(dst, written, w, n, target, n, 0, step)
    ensures forall k: nat :: k in written <==> k < |dst|
  {
    forall k: nat | k < |dst| ensures k in written {
      SpotSplit(n, k, w);
      assert Reached(w - 1 - k / n, k % n, n, 0, step);
      assert Index(w, n, w - 1 - k / n, k % n) == k;
    }
  }

  // ----- the packed counter

  /** `subs lr, lr, #1<<16` on inner count k above outer count n: it goes negative exactly when k was 0. */
  lemma InnerCount(k: nat, n: nat)
    requires k < 0x8000 && n < 0x1_0000
    ensures k > 0 ==> Plus(k * 0x1_0000 + n, -0x1_0000) == (k - 1) * 0x1_0000 + n < 0x8000_0000
    ensures k == 0 ==> Plus(n, -0x1_0000) >= 0x8000_0000 && Plus(Plus(n, -0x1_0000), 0x1_0000) == n
  {
  }

  /** `orr` puts a new inner count above an outer count without disturbing it. */
  lemma PackCounts(k: nat, n: nat)
    requires k < 0x8000 && n < 0x1_0000
    ensures Or(k * 0x1_0000, n) == k * 0x1_0000 + n < 0x8000_0000
  {
    Pow2Values();
    hide Or, Pow2;
    OrDisjoint(k, n, 16);
  }

  /** Which source words loads from four consecutive rows fetch; n is the number of words to a row. */
  lemma FourRows(n: nat, b: nat, g: nat, j: nat)
    requires g < b && j < n
    ensures Spot(n, j, 4 * g) + n == Spot(n, j, 4 * g + 1) && Spot(n, j, 4 * g) + 2 * n == Spot(n, j, 4 * g + 2)
    ensures Spot(n, j, 4 * g) + 3 * n == Spot(n, j, 4 * g + 3) < Area(n, 4 * b)
  {
    SpotBound(n, j, 4 * g + 3, 4 * b);
  }

  /** Pointer arithmetic at the turn from one group of rows to the next; u words per group and column. */
  lemma GroupTurn(u: nat, w: nat, b: nat, a: nat, g: nat)
    ensures u * g - u * b + w * (u * b) == Cell(w, u * b, 0, u * g)
    ensures Cell(w, u * b, w, u * g) == u * g - u * b
    ensures Spot(u * a, 0, 4 * g) + u * a + 3 * (u * a) == Spot(u * a, 0, 4 * (g + 1))
  {
  }

  // ----- 16 bits per pixel

  /** Pixel k of a word that holds two, low half first. */
  function Half(word: bv32, k: nat): bv32
    requires k < 2
  {
    if k == 0 then word & 0xffff else word >> 16
  }

  function Pixels16(words: seq<bv32>): (p: seq<bv32>)
    ensures |p| == 2 * |words|
  {
    seq(2 * |words|, k requires 0 <= k < 2 * |words| => Half(words[k / 2], k % 2))
  }

  function Pack16(low: bv32, high: bv32, half: nat): bv32
    requires half < 2
  {
    Half(low, half) | (Half(high, half) << 16)
  }

  /** What rb_line_low and rb_line_hi leave in one output register. */
  lemma LineWords(r2: bv32, r3: bv32)
    ensures (r3 << 16) | ((r2 << 16) >> 16) == Pack16(r2, r3, 0)
    ensures (r2 >> 16) | ((r3 >> 16) << 16) == Pack16(r2, r3, 1)
  {
  }

  lemma Unpack16(low: bv32, high: bv32, half: nat)
    requires half < 2
    ensures Half(Pack16(low, high, half), 0) == Half(low, half)
    ensures Half(Pack16(low, high, half), 1) == Half(high, half)
  {
    if half == 0 {
      Packed(low & 0xffff, high & 0xffff);
    } else {
      Packed(low >> 16, high >> 16);
    }
  }

  lemma Packed(low: bv32, high: bv32)
    ensures low <= 0xffff ==> (low | (high << 16)) & 0xffff == low
    ensures low <= 0xffff && high <= 0xffff ==> (low | (high << 16)) >> 16 == high
  {
  }

  /** Word k of a sequence; the kernels never ask for one outside. */
  function WordIn(src: seq<bv32>, k: nat): bv32 {
    if k < |src| then src[k] else 0
  }

  /** The word that belongs at place m of column x: that column of rows 2m and 2m+1; 2a source words to a row. */
  function TargetWord16(src: seq<bv32>, a: nat, x: nat, m: nat): bv32 {
    Pack16(WordIn(src, Spot(2 * a, x / 2, 2 * m)), WordIn(src, Spot(2 * a, x / 2, 2 * m + 1)), x % 2)
  }

  function Target16(src: seq<bv32>, a: nat): (nat, nat) -> bv32 {
    (x: nat, m: nat) => TargetWord16(src, a, x, m)
  }

  /** The targets of group g in column x, from the words of its four rows. */
  lemma GroupTargets16(src: seq<bv32>, a: nat, b: nat, x: nat, g: nat, r1: nat)
    requires |src| == Area(2 * a, 4 * b) && x < 4 * a && g < b && r1 == Spot(2 * a, x / 2, 4 * g)
    ensures r1 + 3 * (2 * a) < |src|
    ensures Target16(src, a)(x, 2 * g) == Pack16(src[r1], src[r1 + 2 * a], x % 2)
    ensures Target16(src, a)(x, 2 * g + 1) == Pack16(src[r1 + 2 * (2 * a)], src[r1 + 3 * (2 * a)], x % 2)
  {
    hide Area, Spot, Pack16;
    FourRows(2 * a, b, g, x / 2);
    assert 2 * (2 * g) == 4 * g && 2 * (2 * g) + 1 == 4 * g + 1;
    assert 2 * (2 * g + 1) == 4 * g + 2 && 2 * (2 * g + 1) + 1 == 4 * g + 3;
  }

  /** Four loads and, for each half-word, two stores: two columns of group g. */
  method TwoColumns16(dst: array<bv32>, src: array<bv32>, a: nat, b: nat, r0: int, r1: nat, ghost x: nat, ghost g: nat,
                      ghost written: set<nat>)
    returns (r0': int, ghost written': set<nat>)
    requires dst.Length == Area(2 * b, 4 * a) && src.Length == Area(2 * a, 4 * b) && dst != src
    requires x % 2 == 0 && x < 4 * a && g < b
    requires r0 == Cell(4 * a, 2 * b, x, 2 * g) && r1 == Spot(2 * a, x / 2, 4 * g)
    requires Finished(dst[..], written, 4 * a, 2 * b, Target16(src[..], a), 2 * g, x, 2)
    modifies dst
    ensures Finished(dst[..], written', 4 * a, 2 * b, Target16(src[..], a), 2 * g, x + 2, 2)
    ensures r0' == Cell(4 * a, 2 * b, x + 2, 2 * g)
  {
    hide Area, Spot, Finished, Pack16, Half, Stored;
    GroupTargets16(src[..], a, b, x, g, r1);
    GroupTargets16(src[..], a, b, x + 1, g, r1);
    hide Target16;
    var r2, r3, r4, r5 := src[r1], src[r1 + 2 * a], src[r1 + 2 * (2 * a)], src[r1 + 3 * (2 * a)];
    LineWords(r2, r3);
    LineWords(r4, r5);
    ghost var pixels := src[..];
    r0', written' := ColumnPair(dst, a, b, r0, (r3 << 16) | ((r2 << 16) >> 16), (r5 << 16) | ((r4 << 16) >> 16),
                                x, g, pixels, written);
    r0', written' := ColumnPair(dst, a, b, r0', (r2 >> 16) | ((r3 >> 16) << 16), (r4 >> 16) | ((r5 >> 16) << 16),
                                x + 1, g, pixels, written');
  }

  /** `stmia r0, {r7, r8}`, and on to the column on the left. */
  method ColumnPair(dst: array<bv32>, a: nat, b: nat, r0: int, r7: bv32, r8: bv32, ghost x: nat, ghost g: nat,
                    ghost src: seq<bv32>, ghost written: set<nat>)
    returns (r0': int, ghost written': set<nat>)
    requires dst.Length == Area(2 * b, 4 * a) && x < 4 * a && g < b && r0 == Cell(4 * a, 2 * b, x, 2 * g)
    requires r7 == Target16(src, a)(x, 2 * g) && r8 == Target16(src, a)(x, 2 * g + 1)
    requires Finished(dst[..], written, 4 * a, 2 * b, Target16(src, a), 2 * g, x, 2)
    modifies dst
    ensures Finished(dst[..], written', 4 * a, 2 * b, Target16(src, a), 2 * g, x + 1, 2)
    ensures r0' == Cell(4 * a, 2 * b, x + 1, 2 * g)
  {
    hide Area, Finished, Stored, Target16, Index;
    ghost var before := dst[..];
    NotWritten(before, written, 4 * a, 2 * b, Target16(src, a), 2 * g, x, 2, 2 * g);
    NotWritten(before, written, 4 * a, 2 * b, Target16(src, a), 2 * g, x, 2, 2 * g + 1);
    written' := StoreWord(dst, 4 * a, 2 * b, r0, r7, x, 2 * g, written);
    ghost var middle := dst[..];
    written' := StoreWord(dst, 4 * a, 2 * b, r0 + 1, r8, x, 2 * g + 1, written');
    TwoFinished(before, middle, dst[..], written, 4 * a, 2 * b, Target16(src, a), 2 * g, x);
    NextColumn(4 * a, 2 * b, x, 2 * g);
    r0' := r0 - 2 * b;
  }

  /** The inner loop: four rows become four places of every column, and the inner count runs out. */
  method Group16(dst: array<bv32>, src: array<bv32>, a: nat, b: nat, r0: int, r1: nat, lr: Word, ghost g: nat,
                 ghost written: set<nat>)
    returns (r0': int, r1': nat, lr': Word, ghost written': set<nat>)
    requires dst.Length == Area(2 * b, 4 * a) && src.Length == Area(2 * a, 4 * b) && dst != src
    requires 0 < a <= 0x8000 && g < b < 0x1_0000
    requires lr as int == (a - 1) * 0x1_0000 + (b - g)
    requires r0 == Cell(4 * a, 2 * b, 0, 2 * g) && r1 == Spot(2 * a, 0, 4 * g)
    requires Finished(dst[..], written, 4 * a, 2 * b, Target16(src[..], a), 2 * g, 0, 2)
    modifies dst
    ensures Finished(dst[..], written', 4 * a, 2 * b, Target16(src[..], a), 2 * g, 4 * a, 2)
    ensures r0' == Cell(4 * a, 2 * b, 4 * a, 2 * g) && r1' == r1 + 2 * a && Plus(lr', 0x1_0000) == b - g
  {
    hide Area, Finished, Target16, Cell, Plus;
    ghost var i := 0;
    r0', r1', lr', written' := r0, r1, lr, written;
    while true
      invariant 0 <= i < a && lr' as int == (a - 1 - i) * 0x1_0000 + (b - g)
      invariant r0' == Cell(4 * a, 2 * b, 4 * i, 2 * g) && r1' == r1 + 2 * i
      invariant Finished(dst[..], written', 4 * a, 2 * b, Target16(src[..], a), 2 * g, 4 * i, 2)
      decreases a - i
    {
      r0', written' := TwoColumns16(dst, src, a, b, r0', r1', 4 * i, g, written');
      r0', written' := TwoColumns16(dst, src, a, b, r0', r1' + 1, 4 * i + 2, g, written');
      InnerCount(a - 1 - i, b - g);
      lr' := Plus(lr', -0x1_0000);
      r1' := r1' + 2;
      i := i + 1;
      if lr' >= 0x8000_0000 { break; }
    }
  }

  /**
   The kernel rotates every picture, whatever the destination held. No word is stored to twice, which every store asks
   for, and in the end every word has been written. The two counts in lr never disturb each other.
   */
  method RotatedBlit16(dst: array<bv32>, src: array<bv32>, a: nat, b: nat) returns (ghost written: set<nat>)
    requires dst.Length == Area(2 * b, 4 * a) && src.Length == Area(2 * a, 4 * b) && dst != src
    requires 0 < a <= 0x8000 && 0 < b < 0x1_0000
    modifies dst
    ensures |Pixels16(src[..])| == Area(4 * a, 4 * b)
    ensures Pixels16(dst[..]) == Rotated(Pixels16(src[..]), 4 * a, 4 * b)
    ensures forall k: nat :: k in written <==> k < dst.Length
  {
    hide Finished, Target16, Or, Cell, Plus, Pixels16, Spot, Area;
    var r0: int, r1: nat, lr: Word := 0 - 2 * b, 0, b;
    ghost var g := 0;
    written := {};
    GroupTurn(2, 4 * a, b, a, 0);
    NothingFinished(dst[..], 4 * a, 2 * b, Target16(src[..], a), 2);
    assert Spot(2 * a, 0, 0) == 0 by { SpotZero(2 * a); }
    while true
      invariant 0 <= g < b && lr as int == b - g
      invariant r0 == 2 * g - 2 * b && r1 == Spot(2 * a, 0, 4 * g)
      invariant Finished(dst[..], written, 4 * a, 2 * b, Target16(src[..], a), 2 * g, 0, 2)
      decreases b - g
    {
      GroupTurn(2, 4 * a, b, a, g);
      PackCounts(a - 1, lr);
      lr := Or((a - 1) * 0x1_0000, lr);
      r0 := r0 + 4 * a * (2 * b);
      r0, r1, lr, written := Group16(dst, src, a, b, r0, r1, lr, g, written);
      lr := Plus(lr, 0x1_0000);
      var more := Signed(lr) > 1;
      PlusSmall(lr, -1);
      lr := Plus(lr, -1);
      r0 := r0 + 2;
      r1 := r1 + 3 * (2 * a);
      GroupFinished(dst[..], written, 4 * a, 2 * b, Target16(src[..], a), 2 * g, 2);
      g := g + 1;
      if !more { break; }
    }
    PictureFinished16(dst[..], written, src[..], a, b);
    AllWritten(dst[..], written, 4 * a, 2 * b, Target16(src[..], a), 2);
  }

  lemma NothingFinished(dst: seq<bv32>, w: nat, n: nat, target: (nat, nat) -> bv32, step: nat)
    requires |dst| == Area(n, w)
    ensures Finished(dst, {}, w, n, target, 0, 0, step)
  {
    hide At, Area;
  }

  lemma SpotZero(n: nat)
    ensures Spot(n, 0, 0) == 0
  {
  }

  lemma Areas16(a: nat, b: nat)
    ensures 2 * Area(2 * b, 4 * a) == Area(4 * a, 4 * b) == 2 * Area(2 * a, 4 * b)
  {
    AreaScaled(2, 2 * b, 4 * a);
    AreaScaled(2, 2 * a, 4 * b);
    AreaScaled(1, 4 * a, 4 * b);
  }

  /** When every word is finished every pixel is right. */
  lemma PictureFinished16(dst: seq<bv32>, written: set<nat>, src: seq<bv32>, a: nat, b: nat)
    requires |dst| == Area(2 * b, 4 * a) && |src| == Area(2 * a, 4 * b)
    requires Finished(dst, written, 4 * a, 2 * b, Target16(src, a), 2 * b, 0, 2)
    ensures |Pixels16(src)| == Area(4 * a, 4 * b) && Pixels16(dst) == Rotated(Pixels16(src), 4 * a, 4 * b)
  {
    hide Area, Finished, Target16, Rotated, Pixels16;
    Areas16(a, b);
    forall x, y | 0 <= x < 4 * a && 0 <= y < 4 * b
      ensures PixelRight(Pixels16(dst), Pixels16(src), 4 * a, 4 * b, x, y)
    {
      PixelFinished16(dst, written, src, a, b, x, y);
    }
    RotatedByPixels(Pixels16(dst), Pixels16(src), 4 * a, 4 * b);
  }

  lemma PixelFinished16(dst: seq<bv32>, written: set<nat>, src: seq<bv32>, a: nat, b: nat, x: nat, y: nat)
    requires |dst| == Area(2 * b, 4 * a) && |src| == Area(2 * a, 4 * b) && x < 4 * a && y < 4 * b
    requires |Pixels16(dst)| == |Pixels16(src)| == Area(4 * a, 4 * b)
    requires Finished(dst, written, 4 * a, 2 * b, Target16(src, a), 2 * b, 0, 2)
    ensures PixelRight(Pixels16(dst), Pixels16(src), 4 * a, 4 * b, x, y)
  {
    hide Area, Spot, Half, Pack16, Rotated, Pixels16, Target16;
    var m, w := y / 2, 4 * a;
    RotatedAt(Pixels16(src), w, 4 * b, x, y);
    assert At(dst, w, 2 * b, x, m) == Target16(src, a)(x, m);
    hide Finished;
    CellHalf(dst, a, b, x, y);
    TargetHalf(src, a, b, x, y);
  }

  lemma CellHalf(dst: seq<bv32>, a: nat, b: nat, x: nat, y: nat)
    requires |dst| == Area(2 * b, 4 * a) && x < 4 * a && y < 4 * b && Spot(4 * b, y, 4 * a - 1 - x) < 2 * |dst|
    ensures Pixels16(dst)[Spot(4 * b, y, 4 * a - 1 - x)] == Half(At(dst, 4 * a, 2 * b, x, y / 2), y % 2)
  {
    hide Area, Spot, Half;
    SpotBound(2 * b, y / 2, 4 * a - 1 - x, 4 * a);
    SpotScaled(2, 2 * b, y, 4 * a - 1 - x);
  }

  lemma TargetHalf(src: seq<bv32>, a: nat, b: nat, x: nat, y: nat)
    requires |src| == Area(2 * a, 4 * b) && x < 4 * a && y < 4 * b && Spot(4 * a, x, y) < 2 * |src|
    ensures Half(Target16(src, a)(x, y / 2), y % 2) == Pixels16(src)[Spot(4 * a, x, y)]
  {
    hide Area, Spot, Half, Pack16;
    SpotScaled(2, 2 * a, x, y);
    SpotBound(2 * a, x / 2, 2 * (y / 2), 4 * b);
    SpotBound(2 * a, x / 2, 2 * (y / 2) + 1, 4 * b);
    Unpack16(src[Spot(2 * a, x / 2, 2 * (y / 2))], src[Spot(2 * a, x / 2, 2 * (y / 2) + 1)], x % 2);
  }

  // ----- 8 bits per pixel

  /** Pixel k of a word that holds four, low byte first. */
  function Lane(word: bv32, k: nat): bv32
    requires k < 4
  {
    match k
    case 0 => word & 0xff
    case 1 => (word >> 8) & 0xff
    case 2 => (word >> 16) & 0xff
    case _ => word >> 24
  }

  function Pixels8(words: seq<bv32>): (p: seq<bv32>)
    ensures |p| == 4 * |words|
  {
    seq(4 * |words|, k requires 0 <= k < 4 * |words| => Lane(words[k / 4], k % 4))
  }

  function Pack8(r2: bv32, r3: bv32, r4: bv32, r5: bv32, k: nat): bv32
    requires k < 4
  {
    Lane(r2, k) | (Lane(r3, k) << 8) | (Lane(r4, k) << 16) | (Lane(r5, k) << 24)
  }

  /** The kernel's four shift-and-mask sequences, one for each byte. */
  function Shuffle8(r2: bv32, r3: bv32, r4: bv32, r5: bv32, k: nat): bv32
    requires k < 4
  {
    match k
    case 0 => (((((((r2 << 24) >> 8) | (r3 << 24)) >> 8) | (r4 << 24)) >> 8) | (r5 << 24))
    case 1 => (r3 & 0xff00) | ((r2 & 0xff00) >> 8) | ((r4 & 0xff00) << 8) | ((r5 & 0xff00) << 16)
    case 2 => (r4 & 0xff_0000) | ((r2 & 0xff_0000) >> 16) | ((r3 & 0xff_0000) >> 8) | ((r5 & 0xff_0000) << 8)
    case _ => (((((((r5 >> 24) << 8) | (r4 >> 24)) << 8) | (r3 >> 24)) << 8) | (r2 >> 24))
  }

  lemma ShufflePacks(r2: bv32, r3: bv32, r4: bv32, r5: bv32, k: nat)
    requires k < 4
    ensures Shuffle8(r2, r3, r4, r5, k) == Pack8(r2, r3, r4, r5, k)
  {
    match k
    case 0 =>
    case 1 =>
    case 2 =>
    case _ =>
  }

  lemma Unpack8(r2: bv32, r3: bv32, r4: bv32, r5: bv32, k: nat)
    requires k < 4
    ensures Lane(Pack8(r2, r3, r4, r5, k), 0) == Lane(r2, k) && Lane(Pack8(r2, r3, r4, r5, k), 1) == Lane(r3, k)
    ensures Lane(Pack8(r2, r3, r4, r5, k), 2) == Lane(r4, k) && Lane(Pack8(r2, r3, r4, r5, k), 3) == Lane(r5, k)
  {
    hide Lane;
    Lanes(Pack8(r2, r3, r4, r5, k));
    LaneIsByte(r2, k);
    LaneIsByte(r3, k);
    LaneIsByte(r4, k);
    LaneIsByte(r5, k);
    FourBytes(Lane(r2, k), Lane(r3, k), Lane(r4, k), Lane(r5, k));
  }

  lemma Lanes(word: bv32)
    ensures Lane(word, 0) == word & 0xff && Lane(word, 1) == (word >> 8) & 0xff
    ensures Lane(word, 2) == (word >> 16) & 0xff && Lane(word, 3) == word >> 24
  {
  }

  lemma LaneIsByte(word: bv32, k: nat)
    requires k < 4
    ensures Lane(word, k) <= 0xff
  {
  }

  lemma FourBytes(b0: bv32, b1: bv32, b2: bv32, b3: bv32)
    requires b0 <= 0xff && b1 <= 0xff && b2 <= 0xff && b3 <= 0xff
    ensures var w := b0 | (b1 << 8) | (b2 << 16) | (b3 << 24);
      w & 0xff == b0 && (w >> 8) & 0xff == b1 && (w >> 16) & 0xff == b2 && w >> 24 == b3
  {
  }

  /** The word that belongs at place m of column x: that column of rows 4m to 4m+3; a source words to a row. */
  function TargetWord8(src: seq<bv32>, a: nat, x: nat, m: nat): bv32 {
    Pack8(WordIn(src, Spot(a, x / 4, 4 * m)), WordIn(src, Spot(a, x / 4, 4 * m + 1)),
          WordIn(src, Spot(a, x / 4, 4 * m + 2)), WordIn(src, Spot(a, x / 4, 4 * m + 3)), x % 4)
  }

  function Target8(src: seq<bv32>, a: nat): (nat, nat) -> bv32 {
    (x: nat, m: nat) => TargetWord8(src, a, x, m)
  }

  lemma GroupTarget8(src: seq<bv32>, a: nat, b: nat, x: nat, g: nat, r1: nat)
    requires |src| == Area(a, 4 * b) && x < 4 * a && g < b && r1 == Spot(a, x / 4, 4 * g)
    ensures r1 + 3 * a < |src|
    ensures Target8(src, a)(x, g) == Pack8(src[r1], src[r1 + a], src[r1 + 2 * a], src[r1 + 3 * a], x % 4)
  {
    hide Area, Spot, Pack8;
    FourRows(a, b, g, x / 4);
  }

  /** `str r6, [r0], #-h`: one column of group g. */
  method Column8(dst: array<bv32>, a: nat, b: nat, r0: int, r6: bv32, ghost x: nat, ghost g: nat, ghost src: seq<bv32>,
                 ghost written: set<nat>)
    returns (r0': int, ghost written': set<nat>)
    requires dst.Length == Area(b, 4 * a) && x < 4 * a && g < b && r0 == Cell(4 * a, b, x, g)
    requires r6 == Target8(src, a)(x, g)
    requires Finished(dst[..], written, 4 * a, b, Target8(src, a), g, x, 1)
    modifies dst
    ensures Finished(dst[..], written', 4 * a, b, Target8(src, a), g, x + 1, 1)
    ensures r0' == Cell(4 * a, b, x + 1, g)
  {
    hide Area, Finished, Stored, Target8, Index;
    ghost var before := dst[..];
    NotWritten(before, written, 4 * a, b, Target8(src, a), g, x, 1, g);
    written' := StoreWord(dst, 4 * a, b, r0, r6, x, g, written);
    OneFinished(before, dst[..], written, 4 * a, b, Target8(src, a), g, x);
    NextColumn(4 * a, b, x, g);
    r0' := r0 - b;
  }

  /** The inner loop's body: four loads, four shuffles, four columns. */
  method FourColumns8(dst: array<bv32>, src: array<bv32>, a: nat, b: nat, r0: int, r1: nat, ghost i: nat, ghost g: nat,
                      ghost written: set<nat>)
    returns (r0': int, ghost written': set<nat>)
    requires dst.Length == Area(b, 4 * a) && src.Length == Area(a, 4 * b) && dst != src && i < a && g < b
    requires r0 == Cell(4 * a, b, 4 * i, g) && r1 == Spot(a, i, 4 * g)
    requires Finished(dst[..], written, 4 * a, b, Target8(src[..], a), g, 4 * i, 1)
    modifies dst
    ensures Finished(dst[..], written', 4 * a, b, Target8(src[..], a), g, 4 * i + 4, 1)
    ensures r0' == Cell(4 * a, b, 4 * i + 4, g)
  {
    hide Area, Spot, Finished, Pack8, Shuffle8, Cell;
    ghost var pixels := src[..];
    GroupTarget8(pixels, a, b, 4 * i, g, r1);
    GroupTarget8(pixels, a, b, 4 * i + 1, g, r1);
    GroupTarget8(pixels, a, b, 4 * i + 2, g, r1);
    GroupTarget8(pixels, a, b, 4 * i + 3, g, r1);
    hide Target8;
    var r2, r3, r4, r5 := src[r1], src[r1 + a], src[r1 + 2 * a], src[r1 + 3 * a];
    ShufflePacks(r2, r3, r4, r5, 0);
    ShufflePacks(r2, r3, r4, r5, 1);
    ShufflePacks(r2, r3, r4, r5, 2);
    ShufflePacks(r2, r3, r4, r5, 3);
    r0', written' := Column8(dst, a, b, r0, Shuffle8(r2, r3, r4, r5, 0), 4 * i, g, pixels, written);
    r0', written' := Column8(dst, a, b, r0', Shuffle8(r2, r3, r4, r5, 1), 4 * i + 1, g, pixels, written');
    r0', written' := Column8(dst, a, b, r0', Shuffle8(r2, r3, r4, r5, 2), 4 * i + 2, g, pixels, written');
    r0', written' := Column8(dst, a, b, r0', Shuffle8(r2, r3, r4, r5, 3), 4 * i + 3, g, pixels, written');
  }

  method Group8(dst: array<bv32>, src: array<bv32>, a: nat, b: nat, r0: int, r1: nat, lr: Word, ghost g: nat,
                 ghost written: set<nat>)
    returns (r0': int, r1': nat, lr': Word, ghost written': set<nat>)
    requires dst.Length == Area(b, 4 * a) && src.Length == Area(a, 4 * b) && dst != src
    requires 0 < a <= 0x8000 && g < b < 0x1_0000
    requires lr as int == (a - 1) * 0x1_0000 + (b - g)
    requires r0 == Cell(4 * a, b, 0, g) && r1 == Spot(a, 0, 4 * g)
    requires Finished(dst[..], written, 4 * a, b, Target8(src[..], a), g, 0, 1)
    modifies dst
    ensures Finished(dst[..], written', 4 * a, b, Target8(src[..], a), g, 4 * a, 1)
    ensures r0' == Cell(4 * a, b, 4 * a, g) && r1' == r1 + a && Plus(lr', 0x1_0000) == b - g
  {
    hide Area, Finished, Target8, Cell, Plus;
    ghost var i := 0;
    r0', r1', lr', written' := r0, r1, lr, written;
    while true
      invariant 0 <= i < a && lr' as int == (a - 1 - i) * 0x1_0000 + (b - g)
      invariant r0' == Cell(4 * a, b, 4 * i, g) && r1' == r1 + i
      invariant Finished(dst[..], written', 4 * a, b, Target8(src[..], a), g, 4 * i, 1)
      decreases a - i
    {
      r0', written' := FourColumns8(dst, src, a, b, r0', r1', i, g, written');
      InnerCount(a - 1 - i, b - g);
      lr' := Plus(lr', -0x1_0000);
      r1' := r1' + 1;
      i := i + 1;
      if lr' >= 0x8000_0000 { break; }
    }
  }

  /** The byte kernel makes the same turn of the picture, through its four different packings. */
  method RotatedBlit8(dst: array<bv32>, src: array<bv32>, a: nat, b: nat) returns (ghost written: set<nat>)
    requires dst.Length == Area(b, 4 * a) && src.Length == Area(a, 4 * b) && dst != src
    requires 0 < a <= 0x8000 && 0 < b < 0x1_0000
    modifies dst
    ensures |Pixels8(src[..])| == Area(4 * a, 4 * b)
    ensures Pixels8(dst[..]) == Rotated(Pixels8(src[..]), 4 * a, 4 * b)
    ensures forall k: nat :: k in written <==> k < dst.Length
  {
    hide Finished, Target8, Or, Cell, Plus, Pixels8, Spot, Area;
    var r0: int, r1: nat, lr: Word := 0 - b, 0, b;
    ghost var g := 0;
    written := {};
    GroupTurn(1, 4 * a, b, a, 0);
    NothingFinished(dst[..], 4 * a, b, Target8(src[..], a), 1);
    assert Spot(a, 0, 0) == 0 by { SpotZero(a); }
    while true
      invariant 0 <= g < b && lr as int == b - g
      invariant r0 == g - b && r1 == Spot(a, 0, 4 * g)
      invariant Finished(dst[..], written, 4 * a, b, Target8(src[..], a), g, 0, 1)
      decreases b - g
    {
      GroupTurn(1, 4 * a, b, a, g);
      PackCounts(a - 1, lr);
      lr := Or((a - 1) * 0x1_0000, lr);
      r0 := r0 + 4 * a * b;
      r0, r1, lr, written := Group8(dst, src, a, b, r0, r1, lr, g, written);
      lr := Plus(lr, 0x1_0000);
      var more := Signed(lr) > 1;
      PlusSmall(lr, -1);
      lr := Plus(lr, -1);
      r0 := r0 + 1;
      r1 := r1 + 3 * a;
      GroupFinished(dst[..], written, 4 * a, b, Target8(src[..], a), g, 1);
      g := g + 1;
      if !more { break; }
    }
    PictureFinished8(dst[..], written, src[..], a, b);
    AllWritten(dst[..], written, 4 * a, b, Target8(src[..], a), 1);
  }

  lemma Areas8(a: nat, b: nat)
    ensures 4 * Area(b, 4 * a) == Area(4 * a, 4 * b) == 4 * Area(a, 4 * b)
  {
    AreaScaled(4, b, 4 * a);
    AreaScaled(4, a, 4 * b);
    AreaScaled(1, 4 * a, 4 * b);
  }

  lemma PictureFinished8(dst: seq<bv32>, written: set<nat>, src: seq<bv32>, a: nat, b: nat)
    requires |dst| == Area(b, 4 * a) && |src| == Area(a, 4 * b)
    requires Finished(dst, written, 4 * a, b, Target8(src, a), b, 0, 1)
    ensures |Pixels8(src)| == Area(4 * a, 4 * b) && Pixels8(dst) == Rotated(Pixels8(src), 4 * a, 4 * b)
  {
    hide Area, Finished, Target8, Rotated, Pixels8;
    Areas8(a, b);
    forall x, y | 0 <= x < 4 * a && 0 <= y < 4 * b ensures PixelRight(Pixels8(dst), Pixels8(src), 4 * a, 4 * b, x, y) {
      PixelFinished8(dst, written, src, a, b, x, y);
    }
    RotatedByPixels(Pixels8(dst), Pixels8(src), 4 * a, 4 * b);
  }

  lemma PixelFinished8(dst: seq<bv32>, written: set<nat>, src: seq<bv32>, a: nat, b: nat, x: nat, y: nat)
    requires |dst| == Area(b, 4 * a) && |src| == Area(a, 4 * b) && x < 4 * a && y < 4 * b
    requires |Pixels8(dst)| == |Pixels8(src)| == Area(4 * a, 4 * b)
    requires Finished(dst, written, 4 * a, b, Target8(src, a), b, 0, 1)
    ensures PixelRight(Pixels8(dst), Pixels8(src), 4 * a, 4 * b, x, y)
  {
    hide Area, Spot, Rotated, Pixels8, Target8;
    var m, w := y / 4, 4 * a;
    RotatedAt(Pixels8(src), w, 4 * b, x, y);
    assert At(dst, w, b, x, m) == Target8(src, a)(x, m);
    hide Finished;
    CellLane(dst, a, b, x, y);
    TargetLane(src, a, b, x, y);
  }

  lemma CellLane(dst: seq<bv32>, a: nat, b: nat, x: nat, y: nat)
    requires |dst| == Area(b, 4 * a) && x < 4 * a && y < 4 * b && Spot(4 * b, y, 4 * a - 1 - x) < 4 * |dst|
    ensures Pixels8(dst)[Spot(4 * b, y, 4 * a - 1 - x)] == Lane(At(dst, 4 * a, b, x, y / 4), y % 4)
  {
    hide Area, Spot, Lane;
    SpotBound(b, y / 4, 4 * a - 1 - x, 4 * a);
    SpotScaled(4, b, y, 4 * a - 1 - x);
  }

  lemma TargetLane(src: seq<bv32>, a: nat, b: nat, x: nat, y: nat)
    requires |src| == Area(a, 4 * b) && x < 4 * a && y < 4 * b && Spot(4 * a, x, y) < 4 * |src|
    ensures Lane(Target8(src, a)(x, y / 4), y % 4) == Pixels8(src)[Spot(4 * a, x, y)]
  {
    hide Area, Spot, Lane, Pack8;
    SpotScaled(4, a, x, y);
    var m := y / 4;
    SpotBound(a, x / 4, 4 * m, 4 * b);
    SpotBound(a, x / 4, 4 * m + 1, 4 * b);
    SpotBound(a, x / 4, 4 * m + 2, 4 * b);
    SpotBound(a, x / 4, 4 * m + 3, 4 * b);
    Unpack8(src[Spot(a, x / 4, 4 * m)], src[Spot(a, x / 4, 4 * m + 1)],
            src[Spot(a, x / 4, 4 * m + 2)], src[Spot(a, x / 4, 4 * m + 3)], x % 4);
  }
}
