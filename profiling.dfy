/**
 * The adaptivity triggers (libstm/profiling.hpp): the checks on commit and
 * abort that decide when a thread asks the runtime to collect profiles and
 * pick a new algorithm.  What happens next (trigger_common) is not part of
 * this model; each hook answers whether it would call it.
 */
module Profiling {
  import opened Unsigned

  /** `(unsigned)x` for a C int threshold: negative values wrap. */
  function AsUnsigned(x: int): (r: nat)
    requires -0x8000_0000 <= x < 0x8000_0000
    ensures r < U32
    ensures x >= 0 ==> r == x
    ensures x < 0 ==> r >= 0x8000_0000
  {
    if x < 0 then x + U32 else x
  }

  /**
   * AbortWaitTrigger::onCommitLock: adapt only under a policy with a
   * decider, and only after a begin-time wait above the wait threshold.
   */
  function OnCommitLockFires(hasDecider: bool, beginWait: nat, waitThresh: int): (fires: bool)
    requires beginWait < U32 && -0x8000_0000 <= waitThresh < 0x8000_0000
    ensures fires ==> hasDecider && beginWait > waitThresh
    ensures hasDecider && 0 <= waitThresh < beginWait ==> fires
  {
    hasDecider && beginWait > AsUnsigned(waitThresh)
  }

  /** A negative threshold (the Single policy registers -1) never lets onCommitLock fire. */
  lemma NegativeWaitThreshNeverFires(hasDecider: bool, beginWait: nat)
    requires beginWait < 0x8000_0000
    ensures !OnCommitLockFires(hasDecider, beginWait, -1)
  {
  }

  /** The next trigger commit number after `next`, in unsigned arithmetic. */
  function NextTrigger(next: nat): (r: nat)
    requires next < U32
    ensures r < U32
  {
    if next < 65536 then (next * 16) % U32
    else if next < 524288 then next + 65536
    else (next + 524288) % U32
  }

  /**
   * The schedule: multiply by 16 below 65536, then step by 65536 up to
   * 524288, then by 524288.  A non-zero `next` strictly increases until
   * the unsigned addition wraps.
   */
  lemma NextTriggerGrows(next: nat)
    requires 1 <= next < U32 - 524288
    ensures next < 65536 ==> NextTrigger(next) == 16 * next
    ensures 65536 <= next < 524288 ==> NextTrigger(next) == next + 65536
    ensures 524288 <= next ==> NextTrigger(next) == next + 524288
    ensures next < NextTrigger(next)
  {
  }

  /** `n` successive updates of the trigger number. */
  function IterNext(next: nat, n: nat): (r: nat)
    requires next < U32
    ensures r < U32
    decreases n
  {
    if n == 0 then next else IterNext(NextTrigger(next), n - 1)
  }

  /**
   * From its initial value 1 (profiling.cpp) the trigger number is 65536
   * after four updates and 524288 after eleven.
   */
  lemma ScheduleFromOne()
    ensures IterNext(1, 4) == 65536
    ensures IterNext(1, 11) == 524288
  {
    assert IterNext(4096, 1) == 65536;
    assert IterNext(256, 2) == 65536;
    assert IterNext(16, 3) == 65536;
    assert IterNext(458752, 1) == 524288;
    assert IterNext(393216, 2) == 524288;
    assert IterNext(327680, 3) == 524288;
    assert IterNext(262144, 4) == 524288;
    assert IterNext(196608, 5) == 524288;
    assert IterNext(131072, 6) == 524288;
    assert IterNext(65536, 7) == 524288;
    assert IterNext(4096, 8) == 524288;
    assert IterNext(256, 9) == 524288;
    assert IterNext(16, 10) == 524288;
  }

  /**
   * All values reached from 524288 are multiples of 2^19, so the unsigned
   * addition wraps to exactly 0; from 0 the multiplication keeps it at 0.
   */
  lemma NextTriggerWrapsToZero()
    ensures NextTrigger(U32 - 524288) == 0
    ensures NextTrigger(0) == 0
  {
  }

  /**
   * The trigger state shared by all threads: CommitTrigger::next and the
   * current policy's abort_switch.
   */
  class Triggers {
    var next: nat
    var abortSwitch: bool

    ghost predicate Valid()
      reads this
    {
      next < U32
    }

    constructor()
      ensures Valid() && next == 1 && !abortSwitch
    {
      next := 1;
      abortSwitch := false;
    }

    /**
     * CommitTrigger::onCommitSTM: under a commit-profiling policy with a
     * decider, thread 2 adapts when its commit count (read-only plus
     * read-write, unsigned) equals `next`; then `next` moves on and the
     * switch is recorded as not caused by aborts.  Otherwise nothing
     * changes.
     */
    method OnCommitSTM(hasDecider: bool, isCommitProfile: bool, txId: nat, numRo: nat, numCommits: nat)
      returns (fires: bool)
      requires Valid() && numRo < U32 && numCommits < U32
      modifies this
      ensures Valid()
      ensures fires <==> hasDecider && isCommitProfile && txId == 2 && (numRo + numCommits) % U32 == old(next)
      ensures fires ==> next == NextTrigger(old(next)) && !abortSwitch
      ensures !fires ==> next == old(next) && abortSwitch == old(abortSwitch)
    {
      if !hasDecider {
        return false;
      }
      if !isCommitProfile {
        return false;
      }
      if txId != 2 {
        return false;
      }
      var c := (numRo + numCommits) % U32;
      if c != next {
        return false;
      }
      if next < 65536 {
        next := (next * 16) % U32;
      } else if next < 524288 {
        next := next + 65536;
      } else {
        next := (next + 524288) % U32;
      }
      abortSwitch := false;
      return true;
    }

    /**
     * AbortWaitTrigger::onAbort (also CommitTrigger's): under a policy
     * with a decider, adapt once the consecutive aborts exceed the abort
     * threshold, recording that the switch was caused by aborts.
     */
    method OnAbort(hasDecider: bool, consecAborts: nat, abortThresh: int) returns (fires: bool)
      requires consecAborts < U32 && -0x8000_0000 <= abortThresh < 0x8000_0000
      modifies this`abortSwitch
      ensures fires <==> hasDecider && consecAborts > AsUnsigned(abortThresh)
      ensures fires ==> abortSwitch
      ensures !fires ==> abortSwitch == old(abortSwitch)
    {
      if !hasDecider {
        return false;
      }
      if consecAborts <= AsUnsigned(abortThresh) {
        return false;
      }
      abortSwitch := true;
      return true;
    }
  }

  /**
   * Under the static policies' threshold 16, onAbort fires from the
   * seventeenth consecutive abort on, and never before.
   */
  lemma AbortThresholdSixteen(consecAborts: nat)
    requires consecAborts < U32
    ensures consecAborts > AsUnsigned(16) <==> consecAborts >= 17
  {
  }
}
