/** The two counters the emulated chips offer, computed from the host's clock with multiplications and shifts. */
module Clock {
  import opened Words

  const TWO32 := 0x1_0000_0000
  const TWO64 := 0x1_0000_0000_0000_0000
  const BILLION := 1_000_000_000

  /** A CLOCK_REALTIME reading: seconds fit the host's 31 bits. */
  datatype Time = Time(sec: nat, nsec: nat) {
    predicate Valid() { sec < 0x8000_0000 && nsec < BILLION }

    function Nanoseconds(): nat { sec * BILLION + nsec }
  }

  // ----- TCOUNT, 7372800 ticks a second

  const TICK_FACTOR := 31_665_935
  const TICK_RATE := 7_372_800

  /** The register as it is computed: a 64-bit product, which may wrap, and its upper half. */
  function Tcount(t: Time): Word
    requires t.Valid()
  {
    var t64 := (t.sec * BILLION + t.nsec) % TWO64;
    Wrap(t64 * TICK_FACTOR % TWO64 / TWO32)
  }

  /** Ticks since the epoch, without any reduction. */
  function Ticks(t: Time): nat {
    t.Nanoseconds() * TICK_FACTOR / TWO32
  }

  lemma UpperHalf(x: nat)
    ensures x % TWO64 / TWO32 == x / TWO32 % TWO32
  {
    var q, r := x / TWO64, x % TWO64;
    var h, l := r / TWO32, r % TWO32;
    assert x == (q * TWO32 + h) * TWO32 + l;
    DivUnique(x, TWO32, q * TWO32 + h, l);
    DivUnique(q * TWO32 + h, TWO32, q, h);
  }

  /** The wrap of the product is not seen. */
  lemma TcountIsFloor(t: Time)
    requires t.Valid()
    ensures Tcount(t) == Wrap(t.Nanoseconds() * TICK_FACTOR / TWO32)
  {
    var ns := t.Nanoseconds();
    assert ns % TWO64 == ns;
    UpperHalf(ns * TICK_FACTOR);
    hide Time.Nanoseconds;
  }

  /**
   Between two readings e nanoseconds apart the register advances, modulo 2 to the 32, by a number of ticks that is
   off by less than one, plus the error of the rounded factor, 120051200 parts in 10^9 * 2^32 of e.
   */
  lemma TickError(s: Time, t: Time)
    requires s.Valid() && t.Valid() && s.Nanoseconds() <= t.Nanoseconds()
    ensures var e := t.Nanoseconds() - s.Nanoseconds();
            var d := Ticks(t) - Ticks(s);
            && Wrap(Tcount(t) as int - Tcount(s) as int) == Wrap(d)
            && d * (BILLION * TWO32) > e * TICK_RATE * TWO32 - BILLION * TWO32
            && d * (BILLION * TWO32) < e * TICK_RATE * TWO32 + BILLION * TWO32 + e * 120_051_200
  {
    TcountIsFloor(s);
    TcountIsFloor(t);
    var m, n := s.Nanoseconds(), t.Nanoseconds();
    hide Tcount, Time.Nanoseconds;
    FloorDistance(m * TICK_FACTOR, n * TICK_FACTOR);
    WrapDistance(Ticks(t), Ticks(s));
  }

  lemma FloorDistance(a: nat, b: nat)
    ensures b - a - TWO32 < (b / TWO32 - a / TWO32) * TWO32 < b - a + TWO32
  {
  }

  lemma WrapDistance(a: nat, b: nat)
    ensures Wrap(Wrap(a) as int - Wrap(b) as int) == Wrap(a - b)
  {
    WrapPeriod(a - b, b / TWO32 - a / TWO32);
  }

  // ----- TIMER3, microseconds

  const MICRO_FACTOR := 4_294_968

  /** The division by 1000 as it is done: (n * 4294968) >> 32. */
  function Micro(n: nat): nat {
    n * MICRO_FACTOR / TWO32
  }

  /** The register as it is computed, in 32-bit arithmetic. */
  function Timer3(t: Time): Word
    requires t.Valid()
  {
    Wrap(Wrap(t.sec * 1_000_000) + Micro(t.nsec))
  }

  /** Microseconds since the epoch by the same multiplication, without reduction. */
  function Microseconds(t: Time): nat {
    t.sec * 1_000_000 + Micro(t.nsec)
  }

  lemma Timer3Reduces(t: Time)
    requires t.Valid()
    ensures Timer3(t) == Wrap(Microseconds(t))
  {
    WrapPeriod(Wrap(t.sec * 1_000_000) + Micro(t.nsec), t.sec * 1_000_000 / TWO32);
  }

  /**
   The quotient is right or one too large, and it is clear which; 836 is the largest remainder that never comes out
   wrong.
   */
  lemma MicroIsQuotient(n: nat)
    requires n < BILLION
    ensures Micro(n) == n / 1000 || Micro(n) == n / 1000 + 1
    ensures Micro(n) == n / 1000 <==> 704 * (n / 1000) + n % 1000 * MICRO_FACTOR < TWO32
    ensures n % 1000 <= 836 ==> Micro(n) == n / 1000
    ensures n == 999_999_837 ==> Micro(n) == n / 1000 + 1
  {
    var q, r := n / 1000, n % 1000;
    var over := 704 * q + r * MICRO_FACTOR;
    assert n * MICRO_FACTOR == q * TWO32 + over;
    if over < TWO32 {
      DivUnique(n * MICRO_FACTOR, TWO32, q, over);
    } else {
      DivUnique(n * MICRO_FACTOR, TWO32, q + 1, over - TWO32);
    }
  }

  /** The counter is never more than 163 ns ahead of the clock, nor a whole microsecond behind it. */
  lemma MicrosecondError(t: Time)
    requires t.Valid()
    ensures -1000 < 1000 * Microseconds(t) - t.Nanoseconds() <= 163
  {
    MicroIsQuotient(t.nsec);
    hide Micro;
  }

  /** Before reduction the counter never steps back, across the start of a second neither. */
  lemma MicrosecondsMonotone(s: Time, t: Time)
    requires s.Valid() && t.Valid() && s.Nanoseconds() <= t.Nanoseconds()
    ensures Microseconds(s) <= Microseconds(t)
  {
    if s.sec == t.sec {
      assert s.nsec * MICRO_FACTOR <= t.nsec * MICRO_FACTOR;
    } else {
      assert s.sec < t.sec;
      MicroIsQuotient(s.nsec);
      hide Micro;
    }
  }
}
