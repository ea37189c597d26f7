/**
 * Value-based read validation (ValueList.hpp): a read-set entry remembers
 * an aligned address and the word read there; it is still valid when
 * memory holds the same value, compared byte by byte under a mask when
 * byte logging.
 */
module ValueList {
  import opened Word
  import BlockOperations

  datatype WordValueEntry = WordValueEntry(addr: nat, val: Word)
  datatype ByteValueEntry = ByteValueEntry(addr: nat, val: Word, mask: Word)

  /** WordLoggingValueListEntry::isValid: `*addr == val`. */
  predicate WordIsValid(mem: seq<bv8>, e: WordValueEntry)
    requires e.addr + WORD <= |mem|
  {
    BlockOperations.Load(mem, e.addr) == e.val
  }

  /** WordIsValid means every byte of the word is unchanged. */
  lemma WordIsValidMeansBytes(mem: seq<bv8>, e: WordValueEntry)
    requires e.addr + WORD <= |mem|
    ensures WordIsValid(mem, e) <==> forall k :: 0 <= k < WORD ==> mem[e.addr + k] == e.val[k]
  {
    var w := BlockOperations.Load(mem, e.addr);
    if forall k :: 0 <= k < WORD ==> mem[e.addr + k] == e.val[k] {
      assert forall k :: 0 <= k < WORD ==> w[k] == e.val[k];
    }
  }

  /** ByteLoggingValueListEntry::isValid: `(val & mask) == (*addr & mask)`. */
  function ByteIsValid(mem: seq<bv8>, e: ByteValueEntry): (r: bool)
    requires e.addr + WORD <= |mem|
    ensures IsByteMask(e.mask) ==>
      (r <==> forall k :: 0 <= k < WORD && e.mask[k] == 0xFF ==> mem[e.addr + k] == e.val[k])
  {
    var w := BlockOperations.Load(mem, e.addr);
    if IsByteMask(e.mask) then
      MaskedEqual(e.val, w, e.mask);
      And(e.val, e.mask) == And(w, e.mask)
    else
      And(e.val, e.mask) == And(w, e.mask)
  }

  /** A byte entry with a full mask is valid exactly when the word entry is. */
  lemma FullMaskByteIsWord(mem: seq<bv8>, addr: nat, val: Word)
    requires addr + WORD <= |mem|
    ensures ByteIsValid(mem, ByteValueEntry(addr, val, Ones)) <==> WordIsValid(mem, WordValueEntry(addr, val))
  {
    assert IsByteMask(Ones);
    WordIsValidMeansBytes(mem, WordValueEntry(addr, val));
  }

  /** A zero mask checks nothing: the entry is always valid. */
  lemma ZeroMaskAlwaysValid(mem: seq<bv8>, addr: nat, val: Word)
    requires addr + WORD <= |mem|
    ensures ByteIsValid(mem, ByteValueEntry(addr, val, Zero))
  {
    assert IsByteMask(Zero);
  }
}
