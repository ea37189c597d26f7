/**
 * A 64-bit machine word (uintptr_t on x86-64) seen as its bits, bit k
 * being `(w >> k) & 1`: the bitmap words of the runtime's Bloom filters
 * and reader records.  `|`, `&` and `~` act bit by bit.
 */
module MachineWord {
  /** 8 * sizeof(uintptr_t) */
  const WORD_BITS: nat := 64

  type Word64 = w: seq<bool> | |w| == WORD_BITS witness seq(64, k => false)

  const Zero64: Word64 := seq(WORD_BITS, k => false)

  /** `1lu << o`: the word with only bit `o` set. */
  function Bit(o: nat): (r: Word64)
    requires o < WORD_BITS
    ensures forall k :: 0 <= k < WORD_BITS ==> (r[k] <==> k == o)
  {
    seq(WORD_BITS, k => k == o)
  }

  /** `x | y` */
  function Or(x: Word64, y: Word64): (r: Word64)
    ensures forall k :: 0 <= k < WORD_BITS ==> (r[k] <==> x[k] || y[k])
  {
    seq(WORD_BITS, k requires 0 <= k < WORD_BITS => x[k] || y[k])
  }

  /** `x & ~y` */
  function AndNot(x: Word64, y: Word64): (r: Word64)
    ensures forall k :: 0 <= k < WORD_BITS ==> (r[k] <==> x[k] && !y[k])
  {
    seq(WORD_BITS, k requires 0 <= k < WORD_BITS => x[k] && !y[k])
  }

  /** `(x & y) != 0` */
  predicate Meets(x: Word64, y: Word64)
  {
    exists k :: 0 <= k < WORD_BITS && x[k] && y[k]
  }

  /** `(x & y) != 0` is symmetric. */
  lemma MeetsSymmetric(x: Word64, y: Word64)
    ensures Meets(x, y) <==> Meets(y, x)
  {
    if Meets(x, y) {
      var k :| 0 <= k < WORD_BITS && x[k] && y[k];
      assert y[k] && x[k];
    }
    if Meets(y, x) {
      var k :| 0 <= k < WORD_BITS && y[k] && x[k];
      assert x[k] && y[k];
    }
  }

  /** A single-bit mask meets a word exactly when that bit of the word is set. */
  lemma MeetsBit(x: Word64, o: nat)
    requires o < WORD_BITS
    ensures Meets(x, Bit(o)) <==> x[o]
  {
    if x[o] {
      assert x[o] && Bit(o)[o];
    }
  }

  /**
   * The table index the runtime derives from an address: drop the three
   * low bits (one word of eight bytes), then reduce modulo the table size
   * (get_orec, get_rrec, get_bytelock, get_bitlock, get_nanorec, and the
   * Bloom filter's hash).
   */
  function StripeOf(addr: nat, count: nat): (r: nat)
    requires count > 0
    ensures r < count
  {
    (addr / 8) % count
  }

  /** All bytes of one aligned word share a stripe. */
  lemma SameWordSameStripe(addr: nat, k: nat, count: nat)
    requires count > 0 && addr % 8 == 0 && k < 8
    ensures StripeOf(addr + k, count) == StripeOf(addr, count)
  {
    assert (addr + k) / 8 == addr / 8;
  }
}

/** Unsigned integer widths of the runtime (uint32_t, uint64_t) and their wrap-around. */
module Unsigned {
  import opened Arith

  const U32: nat := 0x1_0000_0000
  const U64: nat := 0x1_0000_0000_0000_0000

  /** `++x` on a uint32_t. */
  function Inc32(x: nat): (r: nat)
    requires x < U32
    ensures r < U32
    ensures x + 1 < U32 ==> r == x + 1
    ensures x + 1 == U32 ==> r == 0
  {
    (x + 1) % U32
  }

  /** `1 << n` */
  function Pow2(n: nat): (r: nat)
    ensures r >= 1
  {
    if n == 0 then 1 else 2 * Pow2(n - 1)
  }

  lemma {:induction false} Pow2Add(a: nat, b: nat)
    ensures Pow2(a + b) == Pow2(a) * Pow2(b)
  {
    if a > 0 {
      Pow2Add(a - 1, b);
    }
  }

  lemma {:induction false} Pow2Monotone(a: nat, b: nat)
    requires a <= b
    ensures Pow2(a) <= Pow2(b)
  {
    if a < b {
      Pow2Monotone(a, b - 1);
    }
  }

  lemma Pow2Of32()
    ensures Pow2(32) == U32
  {
    assert Pow2(4) == 16;
    Pow2Add(4, 4);
    Pow2Add(8, 8);
    Pow2Add(16, 16);
  }

  /** Bitwise and of the low `n` bits of `a` and `b`. */
  function BitAnd(a: nat, b: nat, n: nat): (r: nat)
    ensures r < Pow2(n)
  {
    if n == 0 then 0 else 2 * BitAnd(a / 2, b / 2, n - 1) + (a % 2) * (b % 2)
  }

  /** `h % 2m` from `h / 2 % m` and the lowest bit. */
  lemma ModDouble(h: nat, m: nat)
    requires m >= 1
    ensures h % (2 * m) == 2 * ((h / 2) % m) + h % 2
  {
    var q, r := (h / 2) / m, (h / 2) % m;
    assert h / 2 == m * q + r;
    assert h == (2 * m) * q + (2 * r + h % 2);
    DivModUnique(h, 2 * m, q, 2 * r + h % 2);
  }

  /** Masking with k ones keeps the remainder modulo 2^k. */
  lemma {:induction false} AndLowMask(h: nat, k: nat, n: nat)
    requires k <= n
    ensures BitAnd(h, Pow2(k) - 1, n) == h % Pow2(k)
  {
    if k == 0 {
      AndZero(h, n);
    } else {
      assert (Pow2(k) - 1) % 2 == 1 && (Pow2(k) - 1) / 2 == Pow2(k - 1) - 1;
      AndLowMask(h / 2, k - 1, n - 1);
      ModDouble(h, Pow2(k - 1));
    }
  }

  lemma {:induction false} AndZero(h: nat, n: nat)
    ensures BitAnd(h, 0, n) == 0
  {
    if n > 0 {
      AndZero(h / 2, n - 1);
    }
  }
}
