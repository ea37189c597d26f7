/**
 * Undo-log entries of the eager STMs (include/stm/UndoLog.hpp and the
 * out-of-line parts in build/libstm/types.cpp).  Memory is a byte array
 * indexed by address; a logged word covers the 8 bytes starting at its
 * address.
 */
module UndoLog {
  import opened Word

  /** The bytes a word-sized store with byte mask `mask` leaves in memory. */
  function MaskedStore(m: seq<bv8>, addr: nat, val: Word, mask: Word): (r: seq<bv8>)
    requires addr + WORD <= |m|
    ensures |r| == |m|
    ensures forall a :: 0 <= a < |m| ==>
      r[a] == if addr <= a < addr + WORD && mask[a - addr] == 0xFF then val[a - addr] else m[a]
  {
    seq(|m|, a requires 0 <= a < |m| =>
      if addr <= a < addr + WORD && mask[a - addr] == 0xFF then val[a - addr] else m[a])
  }

  /** A full mask stores the whole word. */
  lemma FullMaskStoresWord(m: seq<bv8>, addr: nat, val: Word)
    requires addr + WORD <= |m|
    ensures MaskedStore(m, addr, val, Ones) == m[..addr] + val + m[addr + WORD..]
  {
    var r := MaskedStore(m, addr, val, Ones);
    var s := m[..addr] + val + m[addr + WORD..];
    assert |r| == |s|;
    forall a | 0 <= a < |m| ensures r[a] == s[a] {
      if addr <= a < addr + WORD {
        assert r[addr + (a - addr)] == val[a - addr];
      }
    }
  }

  /** A zero mask stores nothing. */
  lemma ZeroMaskStoresNothing(m: seq<bv8>, addr: nat, val: Word)
    requires addr + WORD <= |m|
    ensures MaskedStore(m, addr, val, Zero) == m
  {
    var r := MaskedStore(m, addr, val, Zero);
    forall a | 0 <= a < |m| ensures r[a] == m[a] {
      if addr <= a < addr + WORD {
        assert r[addr + (a - addr)] == m[addr + (a - addr)];
      }
    }
  }

  /**
   * DoMaskedWrite: the whole word for a full mask, nothing for an empty one,
   * otherwise each byte whose mask byte is 0xFF.
   */
  method DoMaskedWrite(mem: array<bv8>, addr: nat, val: Word, mask: Word)
    requires addr + WORD <= mem.Length
    modifies mem
    ensures mem[..] == MaskedStore(old(mem[..]), addr, val, mask)
    ensures forall a :: 0 <= a < mem.Length ==>
      mem[a] == if addr <= a < addr + WORD && mask[a - addr] == 0xFF then val[a - addr] else old(mem[a])
  {
    if mask == Ones {
      forall k | 0 <= k < WORD {
        mem[addr + k] := val[k];
      }
      return;
    }
    if mask == Zero {
      return;
    }
    var i := 0;
    while i < WORD
      invariant 0 <= i <= WORD
      invariant forall a :: 0 <= a < mem.Length && !(addr <= a < addr + i) ==> mem[a] == old(mem[a])
      invariant forall k :: 0 <= k < i ==> mem[addr + k] == (if mask[k] == 0xFF then val[k] else old(mem[addr + k]))
    {
      if mask[i] == 0xFF {
        mem[addr + i] := val[i];
      }
      i := i + 1;
    }
  }

  /** WordLoggingUndoLogEntry: an address and the value it held before the write. */
  datatype WordEntry = WordEntry(addr: nat, val: Word)

  /** ByteLoggingUndoLogEntry: address, old value and the mask of logged bytes. */
  datatype ByteEntry = ByteEntry(addr: nat, val: Word, mask: Word)

  /** Word undo writes the logged value back: a byte entry with a full mask. */
  function WordUndo(m: seq<bv8>, e: WordEntry): (r: seq<bv8>)
    requires e.addr + WORD <= |m|
    ensures |r| == |m|
    ensures r[e.addr..e.addr + WORD] == e.val
    ensures forall a :: 0 <= a < |m| && !(e.addr <= a < e.addr + WORD) ==> r[a] == m[a]
  {
    FullMaskStoresWord(m, e.addr, e.val);
    MaskedStore(m, e.addr, e.val, Ones)
  }

  function ByteUndo(m: seq<bv8>, e: ByteEntry): (r: seq<bv8>)
    requires e.addr + WORD <= |m|
  {
    MaskedStore(m, e.addr, e.val, e.mask)
  }

  /**
   * The word filter as written: true iff the entry lies inside
   * [lower, upper) ... except that `addr + 1 < upper` (word pointer
   * arithmetic, i.e. addr + 8 bytes) also rejects a word that ends exactly
   * at `upper`.
   */
  predicate WordFilterAsWritten(e: WordEntry, lower: nat, upper: nat)
  {
    e.addr >= lower && e.addr + WORD < upper
  }

  /** The word filter as intended: the 8 bytes of the entry lie in [lower, upper). */
  predicate WordFilter(e: WordEntry, lower: nat, upper: nat)
  {
    e.addr >= lower && e.addr + WORD <= upper
  }

  /** Byte `k` of the word at `base` lies in [lower, upper). */
  predicate ByteInRange(base: nat, k: nat, lower: nat, upper: nat)
  {
    lower <= base + k < upper
  }

  /** Intended filter: true iff every byte of the entry is in the range. */
  lemma WordFilterMeansContained(e: WordEntry, lower: nat, upper: nat)
    ensures WordFilter(e, lower, upper) <==> forall k :: 0 <= k < WORD ==> ByteInRange(e.addr, k, lower, upper)
  {
    if forall k :: 0 <= k < WORD ==> ByteInRange(e.addr, k, lower, upper) {
      assert ByteInRange(e.addr, 0, lower, upper) && ByteInRange(e.addr, WORD - 1, lower, upper);
    }
  }

  /** The as-written filter misses a word that ends exactly at `upper`. */
  lemma WordFilterAsWrittenMissesLastWord()
    ensures WordFilter(WordEntry(0, Zero), 0, 8)
    ensures !WordFilterAsWritten(WordEntry(0, Zero), 0, 8)
  {
  }

  /** The byte-level decision of filterSlow's loop: bytes in [lower, upper) lose their mask. */
  function FilterMask(e: ByteEntry, lower: nat, upper: nat): (r: Word)
    ensures forall k :: 0 <= k < WORD ==> r[k] == (if lower <= e.addr + k < upper then 0 else e.mask[k])
  {
    seq(WORD, k requires 0 <= k < WORD => if lower <= e.addr + k < upper then 0 else e.mask[k])
  }

  /**
   * filterSlow: an entry inside the range is filtered outright; otherwise the
   * bytes inside the range are removed from the mask and the entry is
   * filtered when no byte is left.
   */
  function FilterSlow(e: ByteEntry, lower: nat, upper: nat): (r: (bool, ByteEntry))
    ensures r.1.addr == e.addr && r.1.val == e.val
    ensures r.0 <==> forall k :: 0 <= k < WORD && e.mask[k] != 0 ==> ByteInRange(e.addr, k, lower, upper)
  {
    if e.addr >= lower && e.addr + WORD < upper then
      (true, e)
    else
      var m := FilterMask(e, lower, upper);
      assert m == Zero <==> forall k :: 0 <= k < WORD ==> m[k] == 0;
      (m == Zero, e.(mask := m))
  }

  /** The byte filter: no intersection is never filtered, otherwise filterSlow decides. */
  function ByteFilter(e: ByteEntry, lower: nat, upper: nat): (r: (bool, ByteEntry))
    ensures (e.addr + WORD < lower || e.addr >= upper) ==> r == (false, e)
    ensures r.0 ==> forall k :: 0 <= k < WORD && e.mask[k] != 0 ==> ByteInRange(e.addr, k, lower, upper)
  {
    if e.addr + WORD < lower || e.addr >= upper then (false, e) else FilterSlow(e, lower, upper)
  }

  /**
   * With a full mask the byte filter and the intended word filter agree;
   * the as-written word filter does not.
   */
  lemma FullMaskByteFilterIsWordFilter(addr: nat, val: Word, lower: nat, upper: nat)
    ensures ByteFilter(ByteEntry(addr, val, Ones), lower, upper).0 == WordFilter(WordEntry(addr, val), lower, upper)
  {
    var e := ByteEntry(addr, val, Ones);
    if ByteFilter(e, lower, upper).0 {
      assert e.mask[0] != 0 && e.mask[WORD - 1] != 0;
    }
    if WordFilter(WordEntry(addr, val), lower, upper) {
      assert forall k :: 0 <= k < WORD ==> ByteInRange(addr, k, lower, upper);
    }
  }

  /** undo() applies the entries from the newest (last) to the oldest (first). */
  function UndoAll(m: seq<bv8>, log: seq<ByteEntry>): (r: seq<bv8>)
    requires forall i :: 0 <= i < |log| ==> log[i].addr + WORD <= |m|
    ensures |r| == |m|
    decreases |log|
  {
    if log == [] then m else UndoAll(ByteUndo(m, log[|log| - 1]), log[..|log| - 1])
  }

  /** The first entry that logged byte `a`, if any. */
  function FirstLogged(log: seq<ByteEntry>, a: nat): (r: nat)
    ensures r <= |log|
    ensures r < |log| ==> Selects(log[r].addr, log[r].mask, a)
    ensures forall i :: 0 <= i < r ==> !Selects(log[i].addr, log[i].mask, a)
    decreases |log|
  {
    if log == [] then 0
    else if Selects(log[0].addr, log[0].mask, a) then 0
    else 1 + FirstLogged(log[1..], a)
  }

  /**
   * After undo, every byte holds the value logged by the OLDEST entry
   * covering it (its value before the transaction), and bytes no entry
   * covers are untouched.
   */
  lemma {:induction false} UndoRestoresOldest(m: seq<bv8>, log: seq<ByteEntry>, a: nat)
    requires forall i :: 0 <= i < |log| ==> log[i].addr + WORD <= |m|
    requires a < |m|
    ensures var f := FirstLogged(log, a);
      UndoAll(m, log)[a] == if f < |log| then log[f].val[a - log[f].addr] else m[a]
    decreases |log|
  {
    if log != [] {
      var n := |log| - 1;
      var m' := ByteUndo(m, log[n]);
      UndoRestoresOldest(m', log[..n], a);
      FirstLoggedPrefix(log, a);
    }
  }

  /** The first entry of a log that logged `a` is the first of its prefix, or else its last entry. */
  lemma FirstLoggedPrefix(log: seq<ByteEntry>, a: nat)
    requires log != []
    ensures var n := |log| - 1; var f := FirstLogged(log[..n], a);
      FirstLogged(log, a) == if f < n then f else if Selects(log[n].addr, log[n].mask, a) then n else |log|
  {
    var n := |log| - 1;
    var f := FirstLogged(log[..n], a);
    var g := FirstLogged(log, a);
    assert forall i :: 0 <= i < n ==> log[..n][i] == log[i];
    if f < n {
      assert Selects(log[f].addr, log[f].mask, a);
    }
  }

  /** UndoLog::undo: walk the log from end() - 1 down to begin(). */
  method Undo(mem: array<bv8>, log: seq<ByteEntry>)
    requires forall i :: 0 <= i < |log| ==> log[i].addr + WORD <= mem.Length
    modifies mem
    ensures mem[..] == UndoAll(old(mem[..]), log)
  {
    var i := |log|;
    assert log[..i] == log;
    while i > 0
      invariant 0 <= i <= |log|
      invariant UndoAll(mem[..], log[..i]) == UndoAll(old(mem[..]), log)
    {
      i := i - 1;
      assert log[..i + 1][..i] == log[..i];
      DoMaskedWrite(mem, log[i].addr, log[i].val, log[i].mask);
    }
  }
}
