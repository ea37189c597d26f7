/**
 * Read-after-write handling of a redo-log STM (RedoRAWUtils.hpp): a
 * transactional read first looks its address up in the write set; on a hit
 * the logged value answers the read, fully when word logging and, when byte
 * logging, only for the bytes the log holds.
 */
module RedoRaw {
  import opened Word
  import opened WriteSetEntry
  import WriteSet

  datatype Option<T> = None | Some(value: T)

  /** The bytes selected by `pmask` are all among those selected by `logMask`. */
  predicate Covers(logMask: Word, pmask: Word)
  {
    forall k :: 0 <= k < WORD && pmask[k] == 0xFF ==> logMask[k] == 0xFF
  }

  /** REDO_RAW_CHECK under word logging: a hit answers with the logged word. */
  function WordRawCheck(found: bool, logVal: Word): (r: Option<Word>)
    ensures r.Some? <==> found
    ensures found ==> r.value == logVal
  {
    if found then Some(logVal) else None
  }

  /**
   * REDO_RAW_CHECK under byte logging: a hit answers with the logged word
   * only when the requested mask is a subset of the logged one
   * (`(pmask & log.mask) == pmask`).
   */
  function ByteRawCheck(found: bool, logVal: Word, logMask: Word, pmask: Word): (r: Option<Word>)
    ensures r.Some? <==> found && And(pmask, logMask) == pmask
    ensures r.Some? ==> r.value == logVal
  {
    if found && And(pmask, logMask) == pmask then Some(logVal) else None
  }

  /** For byte masks the subset test of ByteRawCheck means Covers. */
  lemma SubsetTestMeansCovers(logMask: Word, pmask: Word)
    requires IsByteMask(logMask) && IsByteMask(pmask)
    ensures And(pmask, logMask) == pmask <==> Covers(logMask, pmask)
  {
    if Covers(logMask, pmask) {
      forall k | 0 <= k < WORD
        ensures And(pmask, logMask)[k] == pmask[k]
      {
      }
    }
  }

  /**
   * REDO_RAW_CLEANUP under byte logging: on a hit the bytes the log holds
   * replace those just read from memory, `(v & ~log.mask) | (log.val & log.mask)`.
   */
  function RawCleanup(value: Word, found: bool, logVal: Word, logMask: Word): (r: Word)
    ensures !found ==> r == value
    ensures found && IsByteMask(logMask) ==>
      forall k :: 0 <= k < WORD ==> r[k] == if logMask[k] == 0xFF then logVal[k] else value[k]
  {
    if found then Or(And(value, Not(logMask)), And(logVal, logMask)) else value
  }

  /** Cleanup with a full logged mask returns the logged word whatever was read. */
  lemma FullLogMaskCleanup(value: Word, logVal: Word)
    ensures RawCleanup(value, true, logVal, Ones) == logVal
  {
    var r := RawCleanup(value, true, logVal, Ones);
    assert IsByteMask(Ones);
    forall k | 0 <= k < WORD
      ensures r[k] == logVal[k]
    {
    }
  }

  /**
   * The fast path agrees with the slow path: when ByteRawCheck answers, every
   * requested byte of its answer is the byte the cleanup would produce from
   * any value read from memory.
   */
  lemma RawCheckAgreesWithCleanup(value: Word, logVal: Word, logMask: Word, pmask: Word)
    requires IsByteMask(logMask) && IsByteMask(pmask)
    requires ByteRawCheck(true, logVal, logMask, pmask).Some?
    ensures forall k :: 0 <= k < WORD && pmask[k] == 0xFF ==>
      ByteRawCheck(true, logVal, logMask, pmask).value[k] == RawCleanup(value, true, logVal, logMask)[k]
  {
    SubsetTestMeansCovers(logMask, pmask);
  }

  /** Cleaning up twice with the same log entry is the same as once. */
  lemma CleanupIdempotent(value: Word, logVal: Word, logMask: Word)
    requires IsByteMask(logMask)
    ensures RawCleanup(RawCleanup(value, true, logVal, logMask), true, logVal, logMask)
         == RawCleanup(value, true, logVal, logMask)
  {
    var once := RawCleanup(value, true, logVal, logMask);
    var twice := RawCleanup(once, true, logVal, logMask);
    forall k | 0 <= k < WORD
      ensures twice[k] == once[k]
    {
    }
  }

  /**
   * Read after write under word logging: once a word `v` is written to `a`
   * (a full-mask entry inserted into the write set), the write-set lookup a
   * read of `a` makes is a hit and the check answers with `v`.
   */
  lemma WordReadAfterWrite(es: seq<ByteEntry>, a: nat, v: Word, q: ByteEntry)
    requires WriteSet.Distinct(es) && q.addr == a && q.mask != Zero
    ensures var found := WriteSet.FindSpec(WriteSet.InsertSpec(es, ByteEntry(a, v, Ones)), q);
      WordRawCheck(found.0, found.1.val) == Some(v)
  {
    WriteSet.FullWriteThenFind(es, a, v, q);
  }

  /**
   * The same under byte logging: after a full-word write of `v`, a read of
   * any bytes of that word is answered from the log with `v`.
   */
  lemma ByteReadAfterWordWrite(es: seq<ByteEntry>, a: nat, v: Word, q: ByteEntry)
    requires WriteSet.Distinct(es) && q.addr == a && q.mask != Zero
    ensures var found := WriteSet.FindSpec(WriteSet.InsertSpec(es, ByteEntry(a, v, Ones)), q);
      ByteRawCheck(found.0, found.1.val, found.1.mask, q.mask) == Some(v)
  {
    WriteSet.FullWriteThenFind(es, a, v, q);
    AndOnes(q.mask);
  }
}
