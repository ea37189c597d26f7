/**
 * A machine word as the RSTM runtime sees it through its byte-logging unions:
 * sizeof(void*) == 8 bytes, byte 0 least significant (little-endian).  Bitwise
 * operators on words act byte by byte.
 */
module Word {
  /** sizeof(void*) */
  const WORD: nat := 8

  type Word = w: seq<bv8> | |w| == WORD witness [0, 0, 0, 0, 0, 0, 0, 0]

  const Zero: Word := [0, 0, 0, 0, 0, 0, 0, 0]
  const Ones: Word := [0xFF, 0xFF, 0xFF, 0xFF, 0xFF, 0xFF, 0xFF, 0xFF]

  function And(a: Word, b: Word): (r: Word)
    ensures forall k :: 0 <= k < WORD ==> r[k] == a[k] & b[k]
  {
    seq(WORD, k requires 0 <= k < WORD => a[k] & b[k])
  }

  function Or(a: Word, b: Word): (r: Word)
    ensures forall k :: 0 <= k < WORD ==> r[k] == a[k] | b[k]
  {
    seq(WORD, k requires 0 <= k < WORD => a[k] | b[k])
  }

  function Not(a: Word): (r: Word)
    ensures forall k :: 0 <= k < WORD ==> r[k] == !a[k]
  {
    seq(WORD, k requires 0 <= k < WORD => !a[k])
  }

  /** A byte mask as the runtime builds it: every byte is 0x00 or 0xFF. */
  predicate IsByteMask(m: Word)
  {
    forall k :: 0 <= k < WORD ==> m[k] == 0 || m[k] == 0xFF
  }

  /** Under a byte mask, two words agree after masking exactly when they agree on every selected byte. */
  lemma MaskedEqual(a: Word, b: Word, mask: Word)
    requires IsByteMask(mask)
    ensures And(a, mask) == And(b, mask) <==> forall k :: 0 <= k < WORD && mask[k] == 0xFF ==> a[k] == b[k]
  {
    if forall k :: 0 <= k < WORD && mask[k] == 0xFF ==> a[k] == b[k] {
      forall k | 0 <= k < WORD
        ensures And(a, mask)[k] == And(b, mask)[k]
      {
      }
    }
  }

  /** Masking with Ones keeps every byte. */
  lemma AndOnes(w: Word)
    ensures And(w, Ones) == w
  {
    forall k | 0 <= k < WORD
      ensures And(w, Ones)[k] == w[k]
    {
      assert Ones[k] == 0xFF;
    }
  }

  /** Byte `a` lies in the word at `base` and `mask` selects it. */
  predicate Selects(base: nat, mask: Word, a: nat)
  {
    base <= a < base + WORD && mask[a - base] == 0xFF
  }

  /** `w >> 8*n` on a little-endian word: bytes move toward index 0. */
  function ShiftDownBytes(w: Word, n: nat): (r: Word)
    requires n <= WORD
    ensures forall k :: 0 <= k < WORD ==> r[k] == (if k + n < WORD then w[k + n] else 0)
  {
    w[n..] + Zero[..n]
  }

  /** `w << 8*n` on a little-endian word: bytes move toward index 7. */
  function ShiftUpBytes(w: Word, n: nat): (r: Word)
    requires n <= WORD
    ensures forall k :: 0 <= k < WORD ==> r[k] == (if k >= n then w[k - n] else 0)
  {
    Zero[..n] + w[..WORD - n]
  }
}
