/**
 * Address and mask arithmetic of the ITM-to-STM shim (libitm2stm/Utilities.h).
 * Addresses are unsigned 64-bit integers; since sizeof(void*) == 8 is a power
 * of two, `a & (8 - 1)` is `a % 8` and `a & ~(8 - 1)` is `a - a % 8`.
 */
module ItmUtilities {
  import opened Word

  const ADDRESS_LIMIT: nat := 0x1_0000_0000_0000_0000

  type Address = a: nat | a < ADDRESS_LIMIT

  /** offset_of: the position of an address inside its word. */
  function OffsetOf(address: Address): (r: nat)
    ensures r < WORD
    ensures (address - r) % WORD == 0
  {
    address % WORD
  }

  /** base_of: the word-aligned address at or below `address`. */
  function BaseOf(address: Address): (r: Address)
    ensures r % WORD == 0
    ensures r + OffsetOf(address) == address
    ensures address - WORD < r <= address
  {
    address - address % WORD
  }

  /** add_bytes: byte-pointer arithmetic, wrapping modulo 2^64 like uintptr_t. */
  function AddBytes(address: Address, bytes: Address): (r: Address)
    ensures address + bytes < ADDRESS_LIMIT ==> r == address + bytes
    ensures (r - address - bytes) % ADDRESS_LIMIT == 0
  {
    (address + bytes) % ADDRESS_LIMIT
  }

  /**
   * make_mask(i, j) as written: all ones, shifted down by 8*(WORD - j) bits
   * (keeping bytes 0..j-1), then up by 8*i bits.  The second shift moves the
   * j kept bytes up instead of trimming them, so the mask covers bytes
   * i..i+j-1 (cut at the top of the word), not i..j-1.
   */
  function MakeMaskAsWritten(i: nat, j: nat): (r: Word)
    requires i < j <= WORD
    ensures IsByteMask(r)
    ensures forall b :: 0 <= b < WORD ==> (r[b] == 0xFF <==> i <= b < i + j)
  {
    ShiftUpBytes(ShiftDownBytes(Ones, WORD - j), i)
  }

  /** make_mask(2, 4) also covers bytes 4 and 5, outside the range [2, 4). */
  lemma MakeMaskAsWrittenOverreaches()
    ensures MakeMaskAsWritten(2, 4)[4] == 0xFF && MakeMaskAsWritten(2, 4)[5] == 0xFF
    ensures MakeMask(2, 4)[4] == 0 && MakeMask(2, 4)[5] == 0
  {
  }

  /**
   * make_mask(i, j) as intended: keep j - i bytes, then shift them up to
   * start at byte i.  This is the mask the rest of the model uses.
   */
  function MakeMask(i: nat, j: nat): (r: Word)
    requires i < j <= WORD
    ensures IsByteMask(r)
    ensures forall b :: 0 <= b < WORD ==> (r[b] == 0xFF <==> i <= b < j)
  {
    ShiftUpBytes(ShiftDownBytes(Ones, WORD - (j - i)), i)
  }

  /** The two agree exactly when the range starts at byte 0 or runs to the top of the word. */
  lemma MakeMaskAgreement(i: nat, j: nat)
    requires i < j <= WORD
    ensures MakeMaskAsWritten(i, j) == MakeMask(i, j) <==> (i == 0 || j == WORD)
  {
    if i == 0 || j == WORD {
      assert forall b :: 0 <= b < WORD ==> MakeMaskAsWritten(i, j)[b] == MakeMask(i, j)[b];
    } else {
      assert MakeMaskAsWritten(i, j)[j] != MakeMask(i, j)[j];
    }
  }

  /** A mask over the whole word is all ones: the word path of block_read/write. */
  lemma FullWordMask()
    ensures MakeMask(0, WORD) == Ones
  {
    assert forall b :: 0 <= b < WORD ==> MakeMask(0, WORD)[b] == Ones[b];
  }
}
