/**
 * Shared machinery of the STM algorithms (libstm/algs/algs.hpp): the
 * tables addresses are hashed into, the visible-reader record, the
 * histogram of consecutive aborts, the exponential-backoff bound and the
 * per-thread commit and abort counters.
 */
module Algs {
  import opened MachineWord
  import opened Unsigned

  /** number of orecs */
  const NUM_STRIPES: nat := 1048576
  /** number of ring elements */
  const RING_ELEMENTS: nat := 1024
  /** aborts before karma is incremented */
  const KARMA_FACTOR: nat := 16
  /** minimum and maximum backoff exponent */
  const BACKOFF_MIN: nat := 4
  const BACKOFF_MAX: nat := 16
  /** number of rrecs */
  const RREC_COUNT: nat := 1048576
  /** most threads the runtime supports (metadata.hpp) */
  const MAX_THREADS: nat := 256

  /** get_orec, get_bytelock and get_bitlock: the stripe of an address. */
  function OrecOf(addr: nat): (r: nat)
    ensures r < NUM_STRIPES
  {
    StripeOf(addr, NUM_STRIPES)
  }

  /** get_nanorec: the ring slot of an address. */
  function NanorecOf(addr: nat): (r: nat)
    ensures r < RING_ELEMENTS
  {
    StripeOf(addr, RING_ELEMENTS)
  }

  /** get_rrec: the reader record of an address. */
  function RrecOf(addr: nat): (r: nat)
    ensures r < RREC_COUNT
  {
    StripeOf(addr, RREC_COUNT)
  }

  /** The bytes of one aligned word share their orec, nanorec and rrec. */
  lemma SameWordSameEntries(addr: nat, k: nat)
    requires addr % 8 == 0 && k < 8
    ensures OrecOf(addr + k) == OrecOf(addr)
    ensures NanorecOf(addr + k) == NanorecOf(addr)
    ensures RrecOf(addr + k) == RrecOf(addr)
  {
    SameWordSameStripe(addr, k, NUM_STRIPES);
    SameWordSameStripe(addr, k, RING_ELEMENTS);
    SameWordSameStripe(addr, k, RREC_COUNT);
  }

  /** Addresses a whole table apart share an orec: the table is a hash, not a map. */
  lemma OrecsCollide(addr: nat)
    ensures OrecOf(addr + 8 * NUM_STRIPES) == OrecOf(addr) && addr + 8 * NUM_STRIPES != addr
  {
    assert (addr + 8 * NUM_STRIPES) / 8 == addr / 8 + NUM_STRIPES;
  }

  /** rrec_t::BITS and rrec_t::BUCKETS: MAX_THREADS bits in 64-bit words. */
  const RREC_BITS: nat := WORD_BITS
  const BUCKETS: nat := MAX_THREADS / RREC_BITS

  /**
   * rrec_t: one bit per thread slot, set while that thread is a visible
   * reader of the location.
   */
  class Rrec {
    var bits: array<Word64>

    ghost predicate Valid()
      reads this
    {
      bits.Length == BUCKETS
    }

    constructor()
      ensures Valid() && fresh(bits)
      ensures forall s :: 0 <= s < MAX_THREADS ==> !GetBit(s)
    {
      bits := new Word64[BUCKETS](_ => Zero64);
    }

    /** getbit: whether thread slot `slot` is a reader. */
    predicate GetBit(slot: nat)
      requires Valid() && slot < MAX_THREADS
      reads this, bits
    {
      bits[slot / RREC_BITS][slot % RREC_BITS]
    }

    /** setbit: make `slot` a reader, leaving every other slot as it was. */
    method SetBit(slot: nat)
      requires Valid() && slot < MAX_THREADS
      modifies bits
      ensures Valid()
      ensures forall s :: 0 <= s < MAX_THREADS ==> (GetBit(s) <==> s == slot || old(GetBit(s)))
    {
      var bucket := slot / RREC_BITS;
      var mask := Bit(slot % RREC_BITS);
      var oldval := bits[bucket];
      if Meets(oldval, mask) {
        MeetsBit(oldval, slot % RREC_BITS);
        return;
      }
      bits[bucket] := Or(oldval, mask);
    }

    /** unsetbit: drop `slot` from the readers, leaving every other slot as it was. */
    method UnsetBit(slot: nat)
      requires Valid() && slot < MAX_THREADS
      modifies bits
      ensures Valid()
      ensures forall s :: 0 <= s < MAX_THREADS ==> (GetBit(s) <==> s != slot && old(GetBit(s)))
    {
      var bucket := slot / RREC_BITS;
      var mask := Bit(slot % RREC_BITS);
      var oldval := bits[bucket];
      MeetsBit(oldval, slot % RREC_BITS);
      if !Meets(oldval, mask) {
        return;
      }
      bits[bucket] := AndNot(oldval, mask);
    }

    /**
     * setif: test-and-set.  Answers false, changing nothing, when `slot`
     * already reads; otherwise makes it a reader and answers true.
     */
    method SetIf(slot: nat) returns (set_: bool)
      requires Valid() && slot < MAX_THREADS
      modifies bits
      ensures Valid()
      ensures set_ <==> !old(GetBit(slot))
      ensures forall s :: 0 <= s < MAX_THREADS ==> (GetBit(s) <==> s == slot || old(GetBit(s)))
    {
      var bucket := slot / RREC_BITS;
      var mask := Bit(slot % RREC_BITS);
      var oldval := bits[bucket];
      MeetsBit(oldval, slot % RREC_BITS);
      if Meets(oldval, mask) {
        return false;
      }
      bits[bucket] := Or(oldval, mask);
      return true;
    }

    /**
     * operator|=: afterwards the readers are those of either record
     * (`rhs` may be this very record).
     */
    method OrWith(rhs: Rrec)
      requires Valid() && rhs.Valid()
      modifies bits
      ensures Valid()
      ensures forall s :: 0 <= s < MAX_THREADS ==> (GetBit(s) <==> old(GetBit(s)) || old(rhs.GetBit(s)))
    {
      for i := 0 to BUCKETS
        invariant forall j :: 0 <= j < i ==> bits[j] == Or(old(bits[j]), old(rhs.bits[j]))
        invariant forall j :: i <= j < BUCKETS ==> bits[j] == old(bits[j])
        invariant forall j :: i <= j < BUCKETS ==> rhs.bits[j] == old(rhs.bits[j])
      {
        bits[i] := Or(bits[i], rhs.bits[i]);
      }
    }
  }

  /** The histogram has buckets for 0..16 consecutive aborts and one for more. */
  const HIST_BUCKETS: nat := 18

  /** The bucket counting a commit after `aborts` consecutive aborts. */
  function BucketOf(aborts: nat): (r: nat)
    ensures r < HIST_BUCKETS
    ensures r == HIST_BUCKETS - 1 <==> aborts >= HIST_BUCKETS - 1
    ensures r < HIST_BUCKETS - 1 ==> r == aborts
  {
    if aborts < 17 then aborts else 17
  }

  /**
   * toxic_histogram_t: how many commits followed each number of
   * consecutive aborts, with one overflow bucket and the largest overflow
   * count seen.  All fields are uint32_t.
   */
  class ToxicHistogram {
    var max: nat
    var hgCommits: nat
    var hgAborts: nat
    var buckets: array<nat>

    ghost predicate Valid()
      reads this, buckets
    {
      buckets.Length == HIST_BUCKETS && max < U32 && hgCommits < U32 && hgAborts < U32 &&
      forall i :: 0 <= i < HIST_BUCKETS ==> buckets[i] < U32
    }

    constructor()
      ensures Valid() && fresh(buckets) && max == 0 && hgCommits == 0 && hgAborts == 0
      ensures buckets[..] == seq(HIST_BUCKETS, i => 0)
    {
      max := 0;
      hgCommits := 0;
      hgAborts := 0;
      buckets := new nat[HIST_BUCKETS](_ => 0);
    }

    /**
     * onCommit: count one commit in the bucket of `aborts`; an overflow
     * commit also raises `max` to at least `aborts`.  No other bucket and
     * no other field changes.
     */
    method OnCommit(aborts: nat)
      requires Valid() && aborts < U32
      modifies this`max, buckets
      ensures Valid()
      ensures buckets[BucketOf(aborts)] == Inc32(old(buckets[BucketOf(aborts)]))
      ensures forall i :: 0 <= i < HIST_BUCKETS && i != BucketOf(aborts) ==> buckets[i] == old(buckets[i])
      ensures aborts < HIST_BUCKETS - 1 ==> max == old(max)
      ensures aborts >= HIST_BUCKETS - 1 ==> max >= aborts && max >= old(max) && (max == aborts || max == old(max))
    {
      if aborts < 17 {
        buckets[aborts] := Inc32(buckets[aborts]);
      } else {
        buckets[17] := Inc32(buckets[17]);
        if aborts > max {
          max := aborts;
        }
      }
    }
  }

  /**
   * exp_backoff's exponent: consecutive aborts plus BACKOFF_MIN - 1,
   * computed in uint32_t and capped at BACKOFF_MAX.
   */
  function BackoffBits(consecAborts: nat): (r: nat)
    requires consecAborts < U32
    ensures r <= BACKOFF_MAX
    ensures 1 <= consecAborts < U32 - (BACKOFF_MIN - 1) ==> BACKOFF_MIN <= r
    ensures consecAborts + BACKOFF_MIN - 1 <= BACKOFF_MAX ==> r == consecAborts + BACKOFF_MIN - 1
  {
    var bits := (consecAborts + BACKOFF_MIN - 1) % U32;
    if bits > BACKOFF_MAX then BACKOFF_MAX else bits
  }

  /** The exponent grows with the abort count until it reaches the cap. */
  lemma BackoffBitsMonotone(a: nat, b: nat)
    requires a <= b < U32 - (BACKOFF_MIN - 1)
    ensures BackoffBits(a) <= BackoffBits(b)
  {
  }

  /**
   * exp_backoff's delay: a random uint32_t, stored in an int32_t and
   * masked with `(1 << bits) - 1`, keeps its low `bits` bits.
   */
  function BackoffDelay(random: nat, bits: nat): (r: nat)
    requires random < U32 && bits <= BACKOFF_MAX
    ensures r < Pow2(bits)
  {
    random % Pow2(bits)
  }

  /**
   * The statistics of a transaction descriptor (TxThread) that the commit
   * and rollback hooks maintain; all are uint32_t.
   */
  class TxStats {
    var numCommits: nat
    var numAborts: nat
    var numRo: nat
    var consecAborts: nat
    var abortHist: ToxicHistogram

    ghost predicate Valid()
      reads this, abortHist, abortHist.buckets
    {
      numCommits < U32 && numAborts < U32 && numRo < U32 && consecAborts < U32 && abortHist.Valid()
    }

    constructor()
      ensures Valid() && fresh(abortHist) && fresh(abortHist.buckets)
      ensures numCommits == 0 && numAborts == 0 && numRo == 0 && consecAborts == 0
    {
      numCommits := 0;
      numAborts := 0;
      numRo := 0;
      consecAborts := 0;
      abortHist := new ToxicHistogram();
    }

    /** PreRollback: one more abort, and one more in the current run. */
    method PreRollback()
      requires Valid()
      modifies this`numAborts, this`consecAborts
      ensures Valid()
      ensures numAborts == Inc32(old(numAborts)) && consecAborts == Inc32(old(consecAborts))
    {
      numAborts := Inc32(numAborts);
      consecAborts := Inc32(consecAborts);
    }

    /**
     * OnReadWriteCommit: record the run of aborts that preceded this
     * commit in the histogram, end the run and count the commit.
     */
    method OnReadWriteCommit()
      requires Valid()
      modifies this`numCommits, this`consecAborts, abortHist`max, abortHist.buckets
      ensures Valid()
      ensures consecAborts == 0 && numCommits == Inc32(old(numCommits))
      ensures var b := BucketOf(old(consecAborts));
        abortHist.buckets[b] == Inc32(old(abortHist.buckets[b])) &&
        forall i :: 0 <= i < HIST_BUCKETS && i != b ==> abortHist.buckets[i] == old(abortHist.buckets[i])
    {
      abortHist.OnCommit(consecAborts);
      consecAborts := 0;
      numCommits := Inc32(numCommits);
    }

    /** OnReadOnlyCommit: as OnReadWriteCommit, counting a read-only commit. */
    method OnReadOnlyCommit()
      requires Valid()
      modifies this`numRo, this`consecAborts, abortHist`max, abortHist.buckets
      ensures Valid()
      ensures consecAborts == 0 && numRo == Inc32(old(numRo))
      ensures var b := BucketOf(old(consecAborts));
        abortHist.buckets[b] == Inc32(old(abortHist.buckets[b])) &&
        forall i :: 0 <= i < HIST_BUCKETS && i != b ==> abortHist.buckets[i] == old(abortHist.buckets[i])
    {
      abortHist.OnCommit(consecAborts);
      consecAborts := 0;
      numRo := Inc32(numRo);
    }

    /** OnCGLCommit: a commit under the global lock never aborted, so only the count moves. */
    method OnCGLCommit()
      requires Valid()
      modifies this`numCommits
      ensures Valid() && numCommits == Inc32(old(numCommits))
    {
      numCommits := Inc32(numCommits);
    }

    /** OnReadOnlyCGLCommit */
    method OnReadOnlyCGLCommit()
      requires Valid()
      modifies this`numRo
      ensures Valid() && numRo == Inc32(old(numRo))
    {
      numRo := Inc32(numRo);
    }
  }
}
