/** Thirty-two bit machine words as integers, with the bit-level operations the sources use. */
module Words {

  type Byte = x: int | 0 <= x < 0x100
  type Half = x: int | 0 <= x < 0x1_0000
  type Word = x: int | 0 <= x < 0x1_0000_0000

  /** The value an unsigned 32-bit register holds after computing x. */
  function Wrap(x: int): Word {
    x % 0x1_0000_0000
  }

  /** Register addition. */
  function Plus(a: Word, n: int): Word {
    Wrap(a + n)
  }

  /** The two's complement reading of a register. */
  function Signed(w: Word): int {
    if w < 0x8000_0000 then w else w - 0x1_0000_0000
  }

  function Pow2(n: nat): (p: nat)
    ensures p > 0
  {
    if n == 0 then 1 else 2 * Pow2(n - 1)
  }

  /** The bits of w from the one worth unit up, as many as span has values for. */
  function Field(w: nat, unit: nat, span: nat): nat
    requires unit > 0 && span > 0
  {
    w / unit % span
  }

  /** Whether the bit worth unit is set in w. */
  predicate Bit(w: nat, unit: nat)
    requires unit > 0
  {
    w / unit % 2 == 1
  }

  /** Bitwise or. */
  function Or(a: nat, b: nat): nat
    decreases a + b
  {
    if a == 0 then b
    else if b == 0 then a
    else 2 * Or(a / 2, b / 2) + if a % 2 == 1 || b % 2 == 1 then 1 else 0
  }

  /** Or is addition when the right operand only has bits below those of the left one. */
  lemma {:induction false} OrDisjoint(high: nat, low: nat, n: nat)
    requires low < Pow2(n)
    ensures Or(high * Pow2(n), low) == high * Pow2(n) + low
  {
    if high * Pow2(n) == 0 || low == 0 {
      ZeroOr(low);
    } else {
      assert n > 0;
      var h := high * Pow2(n - 1);
      assert high * Pow2(n) == 2 * h;
      OrDisjoint(high, low / 2, n - 1);
    }
  }

  function ShiftUp(a: nat, n: nat): nat {
    if n == 0 then a else 2 * ShiftUp(a, n - 1)
  }

  /** The same with bits on both sides above the split. */
  lemma {:induction false} OrShifted(a: nat, b: nat, low: nat, n: nat)
    requires low < Pow2(n)
    ensures Or(ShiftUp(a, n), ShiftUp(b, n) + low) == ShiftUp(Or(a, b), n) + low
  {
    if n > 0 {
      OrShifted(a, b, low / 2, n - 1);
      DoubledOr(ShiftUp(a, n - 1), ShiftUp(b, n - 1) + low / 2, low % 2);
      hide Or;
    }
  }

  lemma {:induction false} ShiftUpIsProduct(a: nat, n: nat)
    ensures ShiftUp(a, n) == a * Pow2(n)
  {
    if n > 0 {
      ShiftUpIsProduct(a, n - 1);
      assert a * Pow2(n) == 2 * (a * Pow2(n - 1));
    }
  }

  lemma DoubledOr(x: nat, y: nat, bit: nat)
    requires bit < 2
    ensures Or(2 * x, 2 * y + bit) == 2 * Or(x, y) + bit
  {
    ZeroOr(x);
    ZeroOr(y);
  }

  lemma {:induction false} OrCommutes(a: nat, b: nat)
    ensures Or(a, b) == Or(b, a)
    decreases a + b
  {
    if a > 0 && b > 0 { OrCommutes(a / 2, b / 2); }
  }

  /** The bits of an or are those of either operand. */
  lemma {:induction false} OrBit(a: nat, b: nat, n: nat)
    ensures Bit(Or(a, b), Pow2(n)) <==> Bit(a, Pow2(n)) || Bit(b, Pow2(n))
  {
    OrHalves(a, b);
    if n > 0 {
      OrBit(a / 2, b / 2, n - 1);
      HigherBit(Or(a, b), n);
      HigherBit(a, n);
      HigherBit(b, n);
    }
    hide Or;
  }

  lemma OrHalves(a: nat, b: nat)
    ensures Or(a, b) / 2 == Or(a / 2, b / 2)
    ensures Or(a, b) % 2 == 1 <==> a % 2 == 1 || b % 2 == 1
  {
    ZeroOr(a / 2);
    ZeroOr(b / 2);
  }

  lemma HigherBit(a: nat, n: nat)
    requires n > 0
    ensures Bit(a, Pow2(n)) <==> Bit(a / 2, Pow2(n - 1))
  {
    var p, h, bit := Pow2(n - 1), a / 2, a % 2;
    var q, r := h / p, h % p;
    assert Pow2(n) == 2 * p;
    assert h == q * p + r;
    DivUnique(a, 2 * p, q, 2 * r + bit) by {
      assert q * (2 * p) == 2 * (q * p);
    }
  }

  /** An or of small numbers is small. */
  lemma {:induction false} OrBelow(a: nat, b: nat, n: nat)
    requires a < Pow2(n) && b < Pow2(n)
    ensures Or(a, b) < Pow2(n)
  {
    if n > 0 && a > 0 && b > 0 { OrBelow(a / 2, b / 2, n - 1); }
  }

  lemma ZeroOr(a: nat)
    ensures Or(0, a) == a && Or(a, 0) == a
  {
  }

  lemma Pow2Values()
    ensures Pow2(2) == 4 && Pow2(4) == 16 && Pow2(5) == 32 && Pow2(7) == 128 && Pow2(8) == 0x100
    ensures Pow2(12) == 0x1000 && Pow2(16) == 0x1_0000 && Pow2(20) == 0x10_0000
    ensures Pow2(24) == 0x100_0000 && Pow2(25) == 0x200_0000 && Pow2(28) == 0x1000_0000
    ensures Pow2(31) == 0x8000_0000 && Pow2(32) == 0x1_0000_0000
  {
  }

  lemma ProductOrder(a: int, b: int, d: int)
    requires a < b && d > 0
    ensures a * d + d <= b * d
  {
    assert (b - a - 1) * d >= 0;
    assert (b - a - 1) * d == b * d - a * d - d;
  }

  lemma DivUnique(v: int, d: int, q: int, r: int)
    requires d > 0 && v == q * d + r && 0 <= r < d
    ensures v / d == q
  {
    var k := v / d;
    assert v == k * d + v % d;
    if k > q { ProductOrder(q, k, d); }
    if k < q { ProductOrder(k, q, d); }
  }

  lemma SignedWrap(x: int)
    requires -0x8000_0000 <= x < 0x8000_0000
    ensures Signed(Wrap(x)) == x
  {
  }

  /** Adding the distance from a to b leads from a to b. */
  lemma PlusDistance(a: Word, b: Word)
    ensures Plus(a, Signed(Wrap(b - a))) == b
  {
  }

  /** A short step is the only short distance between its ends. */
  lemma DistanceOfPlus(a: Word, n: int)
    requires -0x8000_0000 <= n < 0x8000_0000
    ensures Signed(Wrap(Plus(a, n) - a)) == n
  {
    var k := (a + n) / 0x1_0000_0000;
    assert Plus(a, n) - a == n - k * 0x1_0000_0000;
    WrapPeriod(n, -k);
    SignedWrap(n);
  }

  lemma WrapPeriod(x: int, k: int)
    ensures Wrap(x + k * 0x1_0000_0000) == Wrap(x)
  {
  }

  lemma PlusPlus(a: Word, m: int, n: int)
    ensures Plus(Plus(a, m), n) == Plus(a, m + n)
  {
  }

  lemma PlusNothing(a: Word)
    ensures Plus(a, 0) == a
  {
  }

  lemma PlusSmall(a: Word, n: int)
    requires 0 <= a as int + n < 0x1_0000_0000
    ensures Plus(a, n) == a as int + n
  {
  }
}
