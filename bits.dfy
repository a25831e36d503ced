/** Fixed-width unsigned integers and the bit-level operations the kernel performs on them.
    Machine words are modelled as bounded mathematical integers; wrap-around is written out. */
module Bits {

  type u8 = x: int | 0 <= x < 0x100
  type u16 = x: int | 0 <= x < 0x1_0000
  type u32 = x: int | 0 <= x < 0x1_0000_0000
  type u64 = x: int | 0 <= x < 0x1_0000_0000_0000_0000

  const TWO_32: int := 0x1_0000_0000
  const TWO_64: int := 0x1_0000_0000_0000_0000

  /** Unsigned 64-bit arithmetic: the result of a C `uint64_t` addition or subtraction. */
  function Wrap64(x: int): (r: u64)
    ensures 0 <= x < TWO_64 ==> r == x
    ensures (r - x) % TWO_64 == 0
  {
    x % TWO_64
  }

  /** A `uint64_t` value stored into a `uint32_t`: the high half is dropped. */
  function Trunc32(x: int): (r: u32)
    ensures 0 <= x < TWO_32 ==> r == x
    ensures (r - x) % TWO_32 == 0
  {
    x % TWO_32
  }

  function Pow2(k: nat): (r: nat)
    ensures r >= 1
  {
    if k == 0 then 1 else 2 * Pow2(k - 1)
  }

  lemma {:induction false} Pow2Add(a: nat, b: nat)
    ensures Pow2(a + b) == Pow2(a) * Pow2(b)
  {
    if a > 0 {
      Pow2Add(a - 1, b);
      assert Pow2(a + b) == 2 * Pow2(a - 1 + b);
    }
  }

  lemma Pow2Values()
    ensures Pow2(12) == 4096 && Pow2(64) == TWO_64
  {
    assert Pow2(2) == 4;
    Pow2Add(2, 2);
    assert Pow2(4) == 16;
    Pow2Add(4, 4);
    assert Pow2(8) == 256;
    Pow2Add(8, 4);
    assert Pow2(12) == 4096;
    Pow2Add(8, 8);
    assert Pow2(16) == 0x1_0000;
    Pow2Add(16, 16);
    assert Pow2(32) == 0x1_0000_0000;
    Pow2Add(32, 32);
  }

  /** `(x >> k) & 1`: bit k of x. */
  predicate TestBit(x: nat, k: nat)
  {
    if k == 0 then x % 2 == 1 else TestBit(x / 2, k - 1)
  }

  /** Bitwise OR of two non-negative integers, bit by bit from the least significant one. */
  function Or(a: nat, b: nat): nat
    decreases a + b
  {
    if a == 0 then b
    else if b == 0 then a
    else 2 * Or(a / 2, b / 2) + (if a % 2 == 1 || b % 2 == 1 then 1 else 0)
  }

  /** `uint64_t | uint64_t`. */
  function Or64(a: u64, b: u64): (r: u64)
    ensures forall k :: TestBit(r, k) == (TestBit(a, k) || TestBit(b, k))
  {
    Pow2Values();
    OrBound(a, b, 64);
    OrTestBits(a, b);
    Or(a, b)
  }

  lemma OrTestBits(a: nat, b: nat)
    ensures forall k :: TestBit(Or(a, b), k) == (TestBit(a, k) || TestBit(b, k))
  {
    forall k: nat
      ensures TestBit(Or(a, b), k) == (TestBit(a, k) || TestBit(b, k))
    {
      OrTestBit(a, b, k);
    }
  }

  /** `a & ~m`: the bits of a that are clear in m. */
  function AndNot(a: nat, m: nat): nat
  {
    if a == 0 then 0
    else 2 * AndNot(a / 2, m / 2) + (if a % 2 == 1 && m % 2 == 0 then 1 else 0)
  }

  /** `1ULL << b` has bit b alone. */
  lemma {:induction false} Pow2TestBit(b: nat, k: nat)
    ensures TestBit(Pow2(b), k) == (k == b)
  {
    if b == 0 {
      if k > 0 {
        ZeroHasNoBits(k - 1);
      }
    } else if k > 0 {
      assert Pow2(b) / 2 == Pow2(b - 1);
      Pow2TestBit(b - 1, k - 1);
    }
  }

  /** Every shift `1ULL << b` with b < 64 fits in a `uint64_t`. */
  lemma Pow2Below64(b: nat)
    requires b < 64
    ensures Pow2(b) < TWO_64
  {
    Pow2Less(b, 64);
    Pow2Values();
  }

  lemma {:induction false} Pow2Less(a: nat, b: nat)
    requires a < b
    ensures Pow2(a) < Pow2(b)
  {
    if a + 1 < b {
      Pow2Less(a, b - 1);
    }
  }

  /** Each bit of `a & ~m` is set exactly when it is set in a and clear in m. */
  lemma {:induction false} AndNotTestBit(a: nat, m: nat, k: nat)
    ensures TestBit(AndNot(a, m), k) == (TestBit(a, k) && !TestBit(m, k))
  {
    if a == 0 {
      ZeroHasNoBits(k);
    } else {
      var low := if a % 2 == 1 && m % 2 == 0 then 1 else 0;
      var h := AndNot(a / 2, m / 2);
      assert AndNot(a, m) == 2 * h + low;
      assert (2 * h + low) / 2 == h;
      if k > 0 {
        AndNotTestBit(a / 2, m / 2, k - 1);
      }
    }
  }

  /** Clearing bits never makes a number larger. */
  lemma {:induction false} AndNotBound(a: nat, m: nat)
    ensures AndNot(a, m) <= a
  {
    if a != 0 {
      AndNotBound(a / 2, m / 2);
    }
  }

  /** `x & ~0xFFF`: x with its 12 low bits cleared (the 4 KiB frame an address lies in). */
  function ClearLow12(x: nat): (r: nat)
    ensures r <= x && x - r < 4096
    ensures r % 4096 == 0
  {
    x - x % 4096
  }

  lemma {:induction false} ZeroHasNoBits(k: nat)
    ensures !TestBit(0, k)
  {
    if k > 0 {
      ZeroHasNoBits(k - 1);
    }
  }

  /** Each bit of `a | b` is set exactly when it is set in a or in b. */
  lemma {:induction false} OrTestBit(a: nat, b: nat, k: nat)
    ensures TestBit(Or(a, b), k) == (TestBit(a, k) || TestBit(b, k))
    decreases a + b
  {
    if a == 0 {
      ZeroHasNoBits(k);
    } else if b == 0 {
      ZeroHasNoBits(k);
    } else {
      var low := if a % 2 == 1 || b % 2 == 1 then 1 else 0;
      var h := Or(a / 2, b / 2);
      assert Or(a, b) == 2 * h + low;
      assert (2 * h + low) / 2 == h;
      if k > 0 {
        OrTestBit(a / 2, b / 2, k - 1);
      }
    }
  }

  /** OR of two k-bit numbers is a k-bit number: `uint64_t | uint64_t` cannot overflow. */
  lemma {:induction false} OrBound(a: nat, b: nat, k: nat)
    requires a < Pow2(k) && b < Pow2(k)
    ensures Or(a, b) < Pow2(k)
    decreases a + b
  {
    if a != 0 && b != 0 {
      assert k > 0;
      OrBound(a / 2, b / 2, k - 1);
    }
  }

  /** OR-ing a value with k clear low bits and a value below 2^k is addition. */
  lemma {:induction false} OrAligned(q: nat, b: nat, k: nat)
    requires b < Pow2(k)
    ensures Or(q * Pow2(k), b) == q * Pow2(k) + b
    decreases k
  {
    var a := q * Pow2(k);
    if a != 0 && b != 0 {
      assert k > 0;
      assert a == 2 * (q * Pow2(k - 1));
      assert a / 2 == q * Pow2(k - 1) && a % 2 == 0;
      OrAligned(q, b / 2, k - 1);
    }
  }

  /** OR-ing a frame address with a value below 4096 fills in its low 12 bits. */
  lemma OrFrame(q: nat, r: nat)
    requires r < 4096
    ensures Or(q * 4096, r) == q * 4096 + r
  {
    Pow2Values();
    OrAligned(q, r, 12);
  }

  /** `|` does not depend on the order of its operands. */
  lemma {:induction false} OrCommutes(a: nat, b: nat)
    ensures Or(a, b) == Or(b, a)
    decreases a + b
  {
    if a != 0 && b != 0 {
      OrCommutes(a / 2, b / 2);
    }
  }

  /** `low | high` for a low nibble and a value with a clear low nibble is addition. */
  lemma OrNibble(low: nat, q: nat)
    requires low < 16
    ensures Or(low, q * 16) == q * 16 + low
  {
    assert Pow2(4) == 16 by {
      assert Pow2(2) == 4;
      Pow2Add(2, 2);
    }
    OrAligned(q, low, 4);
    OrCommutes(low, q * 16);
  }

  /** A multiple of 2^k has bits 0..k-1 clear. */
  lemma {:induction false} AlignedLowBits(q: nat, k: nat, j: nat)
    requires j < k
    ensures !TestBit(q * Pow2(k), j)
    decreases j
  {
    assert q * Pow2(k) == 2 * (q * Pow2(k - 1));
    if j > 0 {
      AlignedLowBits(q, k - 1, j - 1);
    }
  }

  // ------------------------------------------------------------ division facts

  /** Division with remainder is unique: a decomposition x = q * d + r with 0 <= r < d is the
      quotient and the remainder. */
  lemma DivModUnique(x: int, d: int, q: int, r: int)
    requires d > 0 && 0 <= r < d && x == q * d + r
    ensures x / d == q && x % d == r
  {
    var q', r' := x / d, x % d;
    assert x == q' * d + r';
    assert (q - q') * d == r' - r;
    if q > q' {
      MulAtLeast(q - q', d);
    } else if q < q' {
      MulAtLeast(q' - q, d);
    }
  }

  lemma MulAtLeast(a: int, d: int)
    requires a >= 1 && d > 0
    ensures a * d >= d
  {
  }

  /** Dividing by a then by b is dividing by a * b, and the remainder modulo a * b splits into
      the remainder modulo a and the next digit. */
  lemma DivModSplit(x: nat, a: nat, b: nat)
    requires a > 0 && b > 0
    ensures x / (a * b) == x / a / b
    ensures x % (a * b) == x % a + a * ((x / a) % b)
  {
    var q, r := x / a, x % a;
    var Q, R := q / b, q % b;
    Nest(x, a, b, q, r, Q, R);
    DivModUnique(x, a * b, Q, R * a + r);
  }

  lemma Nest(x: int, a: int, b: int, q: int, r: int, Q: int, R: int)
    requires a > 0 && b > 0 && x == q * a + r && 0 <= r < a && q == Q * b + R && 0 <= R < b
    ensures x == Q * (a * b) + (R * a + r) && 0 <= R * a + r < a * b
  {
    assert R * a <= (b - 1) * a;
  }
}
