/**
 * Redo-log entries of the write set (include/stm/WriteSet.hpp).  A word
 * entry is an aligned address and the word to store there; a byte entry
 * adds a byte mask saying which bytes of the word the transaction wrote.
 * Memory is a byte sequence indexed by address and an entry's word covers
 * the 8 bytes from its address.
 */
module WriteSetEntry {
  import opened Word
  import UndoLog

  /** WordLoggingWriteSetEntry. */
  datatype WordEntry = WordEntry(addr: nat, val: Word)

  /** ByteLoggingWriteSetEntry. */
  datatype ByteEntry = ByteEntry(addr: nat, val: Word, mask: Word)

  /** Word update: a second write to the same address replaces the value. */
  function WordUpdate(e: WordEntry, rhs: WordEntry): (r: WordEntry)
    ensures r.addr == e.addr && r.val == rhs.val
  {
    e.(val := rhs.val)
  }

  /**
   * Byte update: the full-mask fast path copies value and mask, then the
   * incoming bytes are merged over the old ones, `(rhs.val & rhs.mask) |
   * (val & ~rhs.mask)`, and the mask becomes `mask | rhs.mask`.
   */
  function ByteUpdate(e: ByteEntry, rhs: ByteEntry): (r: ByteEntry)
    ensures r.addr == e.addr
    ensures r.mask == Or(e.mask, rhs.mask)
    ensures IsByteMask(rhs.mask) ==>
      forall k :: 0 <= k < WORD ==> r.val[k] == if rhs.mask[k] == 0xFF then rhs.val[k] else e.val[k]
  {
    var e1 := if rhs.mask == Ones then e.(val := rhs.val, mask := rhs.mask) else e;
    assert rhs.mask == Ones ==> Or(e.mask, rhs.mask) == Ones;
    ByteEntry(e1.addr, Or(And(rhs.val, rhs.mask), And(e1.val, Not(rhs.mask))), Or(e1.mask, rhs.mask))
  }

  /** The union of two byte masks is a byte mask selecting the bytes of either. */
  lemma MaskUnion(m1: Word, m2: Word)
    requires IsByteMask(m1) && IsByteMask(m2)
    ensures IsByteMask(Or(m1, m2))
    ensures forall k :: 0 <= k < WORD ==> (Or(m1, m2)[k] == 0xFF <==> m1[k] == 0xFF || m2[k] == 0xFF)
  {
  }

  /**
   * Coalescing two writes to one word leaves the bytes the later write
   * selected with its values, the remaining bytes of the earlier write with
   * theirs, and selects the union of the two.
   */
  lemma ByteUpdateCoalesces(e: ByteEntry, rhs: ByteEntry, a: nat)
    requires IsByteMask(e.mask) && IsByteMask(rhs.mask) && rhs.addr == e.addr
    ensures Selects(e.addr, ByteUpdate(e, rhs).mask, a) <==> Selects(e.addr, e.mask, a) || Selects(rhs.addr, rhs.mask, a)
    ensures Selects(rhs.addr, rhs.mask, a) ==> ByteUpdate(e, rhs).val[a - e.addr] == rhs.val[a - e.addr]
    ensures Selects(e.addr, e.mask, a) && !Selects(rhs.addr, rhs.mask, a) ==> ByteUpdate(e, rhs).val[a - e.addr] == e.val[a - e.addr]
  {
    MaskUnion(e.mask, rhs.mask);
  }

  /** A full-mask update replaces the entry's value and mask outright. */
  lemma FullMaskUpdateReplaces(e: ByteEntry, rhs: ByteEntry)
    requires rhs.mask == Ones
    ensures ByteUpdate(e, rhs) == e.(val := rhs.val, mask := Ones)
  {
    var r := ByteUpdate(e, rhs);
    assert IsByteMask(Ones);
    forall k | 0 <= k < WORD
      ensures r.val[k] == rhs.val[k]
    {
    }
  }

  /**
   * The stack filter of both entry kinds, `!(addr + 1 < lower || addr >=
   * upper)` in word-pointer arithmetic.
   */
  predicate Filter(addr: nat, lower: nat, upper: nat)
  {
    !(addr + WORD < lower || addr >= upper)
  }

  /**
   * The filter catches every entry whose word shares a byte with
   * [lower, upper), so writeback never stores into the protected range;
   * for a non-empty range the only disjoint word it also catches is the
   * one ending at `lower`.
   */
  lemma FilterCatchesOverlap(addr: nat, lower: nat, upper: nat)
    ensures (exists k :: 0 <= k < WORD && UndoLog.ByteInRange(addr, k, lower, upper)) ==> Filter(addr, lower, upper)
    ensures Filter(addr, lower, upper) && lower < upper ==>
      (exists k :: 0 <= k < WORD && UndoLog.ByteInRange(addr, k, lower, upper)) || addr + WORD == lower
  {
    if Filter(addr, lower, upper) && lower < upper && addr + WORD != lower {
      if addr >= lower {
        assert UndoLog.ByteInRange(addr, 0, lower, upper);
      } else {
        assert UndoLog.ByteInRange(addr, lower - addr, lower, upper);
      }
    }
  }

  /** Word writeback: `*addr = val`. */
  function WordWriteback(m: seq<bv8>, e: WordEntry): (r: seq<bv8>)
    requires e.addr + WORD <= |m|
    ensures |r| == |m|
    ensures forall a :: 0 <= a < |m| ==> r[a] == if e.addr <= a < e.addr + WORD then e.val[a - e.addr] else m[a]
  {
    UndoLog.MaskedStore(m, e.addr, e.val, Ones)
  }

  /** Byte writeback: the whole word for a full mask, nothing for a zero mask, else the 0xFF bytes. */
  function ByteWriteback(m: seq<bv8>, e: ByteEntry): (r: seq<bv8>)
    requires e.addr + WORD <= |m|
    ensures |r| == |m|
    ensures forall a :: 0 <= a < |m| ==> r[a] == if Selects(e.addr, e.mask, a) then e.val[a - e.addr] else m[a]
  {
    UndoLog.MaskedStore(m, e.addr, e.val, e.mask)
  }

  /** Word rollback: write the entry back into the exception object when the word lies inside it. */
  function WordRollback(m: seq<bv8>, e: WordEntry, lower: nat, upper: nat): (r: seq<bv8>)
    requires e.addr + WORD <= |m|
    ensures e.addr >= lower && e.addr + WORD <= upper ==> r == WordWriteback(m, e)
    ensures !(e.addr >= lower && e.addr + WORD <= upper) ==> r == m
  {
    if e.addr >= lower && e.addr + WORD <= upper then WordWriteback(m, e) else m
  }

  /** Word rollback stores exactly into the words contained in [lower, upper). */
  lemma WordRollbackStaysInRange(m: seq<bv8>, e: WordEntry, lower: nat, upper: nat, a: nat)
    requires e.addr + WORD <= |m| && a < |m|
    requires WordRollback(m, e, lower, upper)[a] != m[a]
    ensures lower <= a < upper
  {
  }

  /** The byte stores of the odd-intersection loop of byte rollback, for a given byte test. */
  function StoreSelected(m: seq<bv8>, e: ByteEntry, lower: nat, upper: nat, asWritten: bool): (r: seq<bv8>)
    requires e.addr + WORD <= |m|
    ensures |r| == |m|
  {
    seq(|m|, a requires 0 <= a < |m| =>
      if Selects(e.addr, e.mask, a) && (if asWritten then a >= lower || a < upper else a >= lower && a < upper)
      then e.val[a - e.addr] else m[a])
  }

  /**
   * Byte rollback as written: no intersection stores nothing, containment
   * writes the entry back, and an odd intersection stores each masked byte
   * with `byte_addr + i >= lower || byte_addr + i < upper`, a test every byte
   * passes.
   */
  function ByteRollbackAsWritten(m: seq<bv8>, e: ByteEntry, lower: nat, upper: nat): (r: seq<bv8>)
    requires e.addr + WORD <= |m|
    ensures |r| == |m|
  {
    if e.addr + WORD < lower || e.addr >= upper then m
    else if e.addr >= lower && e.addr + WORD <= upper then ByteWriteback(m, e)
    else StoreSelected(m, e, lower, upper, true)
  }

  /**
   * An entry at address 0 with a full mask, rolled back into the exception
   * object [4, 100), has its byte 0 stored although byte 0 lies outside it.
   */
  lemma ByteRollbackAsWrittenLeaks()
    ensures ByteRollbackAsWritten([0, 0, 0, 0, 0, 0, 0, 0], ByteEntry(0, Ones, Ones), 4, 100)[0] == 0xFF
  {
    var m: seq<bv8> := [0, 0, 0, 0, 0, 0, 0, 0];
    assert Selects(0, Ones, 0);
    assert StoreSelected(m, ByteEntry(0, Ones, Ones), 4, 100, true)[0] == 0xFF;
  }

  /** Byte rollback with `&&` in the odd-intersection test. */
  function ByteRollback(m: seq<bv8>, e: ByteEntry, lower: nat, upper: nat): (r: seq<bv8>)
    requires e.addr + WORD <= |m|
    ensures |r| == |m|
    ensures forall a :: 0 <= a < |m| ==>
      r[a] == if Selects(e.addr, e.mask, a) && lower <= a < upper then e.val[a - e.addr] else m[a]
  {
    if e.addr + WORD < lower || e.addr >= upper then m
    else if e.addr >= lower && e.addr + WORD <= upper then ByteWriteback(m, e)
    else StoreSelected(m, e, lower, upper, false)
  }

  /** The corrected rollback stores exactly what writeback would, inside the range, and nothing else. */
  lemma ByteRollbackIsClippedWriteback(m: seq<bv8>, e: ByteEntry, lower: nat, upper: nat, a: nat)
    requires e.addr + WORD <= |m| && a < |m|
    ensures ByteRollback(m, e, lower, upper)[a] == if lower <= a < upper then ByteWriteback(m, e)[a] else m[a]
  {
  }
}
