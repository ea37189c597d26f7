/**
 * BoostingList (boosting/list/boostinglist.h): transactional boosting of
 * the lock-free list.  Each operation first locks its key (abstract
 * locks, held to the end of the transaction), then runs on the
 * underlying list and, when it changed the set, logs the operation that
 * undoes it.  An abort replays the log newest first; a commit drops it.
 *
 * Whether the key lock is obtained depends on other threads and on a
 * timeout, so it is a parameter (`locked`) of each operation.
 */
module BoostList {
  import opened Unsigned
  import opened Lockfree

  /** OpType */
  datatype OpType = FindOp | InsertOp | DeleteOp

  /** Operation: a logged inverse operation. */
  datatype Operation = Operation(kind: OpType, key: nat)

  /** Replaying one logged operation on the set succeeds: an insert of an absent key or a delete of a present one. */
  predicate ReplaySucceeds(s: set<nat>, op: Operation)
  {
    match op.kind
    case FindOp => false
    case InsertOp => op.key !in s
    case DeleteOp => op.key in s
  }

  /** The set after replaying one logged operation. */
  function ReplayStep(s: set<nat>, op: Operation): (r: set<nat>)
    ensures op.kind.InsertOp? ==> op.key in r
    ensures op.kind.DeleteOp? ==> op.key !in r
  {
    match op.kind
    case FindOp => s
    case InsertOp => s + {op.key}
    case DeleteOp => s - {op.key}
  }

  /** Replaying the log newest first, as OnAbort does. */
  function Undo(s: set<nat>, log: seq<Operation>): set<nat>
    decreases |log|
  {
    if |log| == 0 then s else Undo(ReplayStep(s, log[|log| - 1]), log[..|log| - 1])
  }

  /** Every step of that replay succeeds. */
  predicate Replayable(s: set<nat>, log: seq<Operation>)
    decreases |log|
  {
    |log| == 0 ||
    (ReplaySucceeds(s, log[|log| - 1]) && Replayable(ReplayStep(s, log[|log| - 1]), log[..|log| - 1]))
  }

  /**
   * Logging the inverse of an operation that changed the set keeps the
   * replay able to restore the set the transaction started from.
   */
  lemma LogInverse(s: set<nat>, log: seq<Operation>, begin: set<nat>, s1: set<nat>, inverse: Operation)
    requires Replayable(s, log) && Undo(s, log) == begin
    requires ReplaySucceeds(s1, inverse) && ReplayStep(s1, inverse) == s
    ensures Replayable(s1, log + [inverse]) && Undo(s1, log + [inverse]) == begin
  {
    assert (log + [inverse])[..|log|] == log;
  }

  /** An insert that added `key` is undone by deleting it, and a delete that removed it by inserting it. */
  lemma InversesUndo(s: set<nat>, key: nat)
    ensures key !in s ==> ReplaySucceeds(s + {key}, Operation(DeleteOp, key)) && ReplayStep(s + {key}, Operation(DeleteOp, key)) == s
    ensures key in s ==> ReplaySucceeds(s - {key}, Operation(InsertOp, key)) && ReplayStep(s - {key}, Operation(InsertOp, key)) == s
  {
  }

  /** The replay of a log one operation shorter, after replaying its newest operation. */
  lemma UndoLast(s: set<nat>, log: seq<Operation>)
    requires |log| > 0
    ensures Undo(s, log) == Undo(ReplayStep(s, log[|log| - 1]), log[..|log| - 1])
    ensures Replayable(s, log) <==> ReplaySucceeds(s, log[|log| - 1]) && Replayable(ReplayStep(s, log[|log| - 1]), log[..|log| - 1])
  {
  }

  /**
   * One operation of a transaction on the set and its log, as Insert,
   * Delete and Find do it with the key locked: a change is logged with its
   * inverse, an operation that changes nothing logs nothing.
   */
  function Perform(s: set<nat>, log: seq<Operation>, op: Operation): (r: (set<nat>, seq<Operation>))
    ensures |log| <= |r.1| <= |log| + 1 && r.1[..|log|] == log
    ensures r.0 != s <==> |r.1| == |log| + 1
  {
    match op.kind
    case FindOp => (s, log)
    case InsertOp => if op.key !in s then (s + {op.key}, log + [Operation(DeleteOp, op.key)]) else (s, log)
    case DeleteOp => if op.key in s then (s - {op.key}, log + [Operation(InsertOp, op.key)]) else (s, log)
  }

  /** A whole transaction from set `s` and an empty log. */
  function Run(s: set<nat>, ops: seq<Operation>): (set<nat>, seq<Operation>)
    decreases |ops|
  {
    if |ops| == 0 then (s, [])
    else var r := Run(s, ops[..|ops| - 1]); Perform(r.0, r.1, ops[|ops| - 1])
  }

  /**
   * Whatever a transaction did, replaying its log newest first succeeds
   * at every step and gives back the set it started from.
   */
  lemma {:induction false} RunUndone(s: set<nat>, ops: seq<Operation>)
    ensures Replayable(Run(s, ops).0, Run(s, ops).1) && Undo(Run(s, ops).0, Run(s, ops).1) == s
    decreases |ops|
  {
    if |ops| > 0 {
      var r := Run(s, ops[..|ops| - 1]);
      RunUndone(s, ops[..|ops| - 1]);
      var op := ops[|ops| - 1];
      InversesUndo(r.0, op.key);
      match op.kind
      case FindOp =>
      case InsertOp =>
        if op.key !in r.0 {
          LogInverse(r.0, r.1, s, r.0 + {op.key}, Operation(DeleteOp, op.key));
        }
      case DeleteOp =>
        if op.key in r.0 {
          LogInverse(r.0, r.1, s, r.0 - {op.key}, Operation(InsertOp, op.key));
        }
    }
  }

  class BoostingList {
    /** m_list */
    const list: LockfreeList
    /** m_log: the inverse operations of this transaction, oldest first. */
    var log: seq<Operation>
    /** The set when the current transaction started. */
    ghost var begin: set<nat>

    ghost predicate Valid()
      reads this, list
    {
      list.Valid() && Replayable(list.Elements(), log) && Undo(list.Elements(), log) == begin &&
      forall i :: 0 <= i < |log| ==> log[i].key < U32
    }

    constructor()
      ensures Valid() && fresh(list) && list.Elements() == {} && log == []
    {
      list := new LockfreeList();
      log := [];
      begin := {};
    }

    /** Init: a fresh, empty log; the transaction starts from the current set. */
    method Init()
      requires list.Valid()
      modifies this
      ensures Valid() && log == [] && begin == list.Elements()
    {
      log := [];
      begin := list.Elements();
    }

    /** Insert: with the key locked, insert it; log a delete exactly when it was added. */
    method Insert(key: nat, locked: bool) returns (ret: bool)
      requires Valid() && key < U32
      modifies this, list
      ensures Valid() && begin == old(begin)
      ensures ret <==> locked && key !in old(list.Elements())
      ensures list.Elements() == if ret then old(list.Elements()) + {key} else old(list.Elements())
      ensures log == if ret then old(log) + [Operation(DeleteOp, key)] else old(log)
    {
      ret := locked;
      if ret {
        ghost var s := list.Elements();
        ret := list.Insert(key);
        if ret {
          InversesUndo(s, key);
          LogInverse(s, log, begin, list.Elements(), Operation(DeleteOp, key));
          log := log + [Operation(DeleteOp, key)];
        }
      }
    }

    /** Delete: with the key locked, delete it; log an insert exactly when it was removed. */
    method Delete(key: nat, locked: bool) returns (ret: bool)
      requires Valid() && key < U32
      modifies this, list
      ensures Valid() && begin == old(begin)
      ensures ret <==> locked && key in old(list.Elements())
      ensures list.Elements() == if ret then old(list.Elements()) - {key} else old(list.Elements())
      ensures log == if ret then old(log) + [Operation(InsertOp, key)] else old(log)
    {
      ret := locked;
      if ret {
        ghost var s := list.Elements();
        ret := list.Delete(key);
        if ret {
          InversesUndo(s, key);
          LogInverse(s, log, begin, list.Elements(), Operation(InsertOp, key));
          log := log + [Operation(InsertOp, key)];
        }
      }
    }

    /** Find: the key is locked and present; nothing is logged. */
    method Find(key: nat, locked: bool) returns (r: bool)
      requires Valid()
      ensures r <==> locked && key in list.Elements()
    {
      r := locked;
      if r {
        r := list.Find(key);
      }
    }

    /**
     * OnAbort: replay the log newest first (every replayed operation
     * succeeds), which restores the set the transaction started from, and
     * empty the log.
     */
    method OnAbort()
      requires Valid()
      modifies this, list
      ensures Valid() && log == [] && list.Elements() == old(begin) && begin == old(begin)
    {
      var i := |log|;
      assert log[..i] == log;
      while i > 0
        invariant 0 <= i <= |log| && log == old(log) && begin == old(begin) && list.Valid()
        invariant forall j :: 0 <= j < |log| ==> log[j].key < U32
        invariant Replayable(list.Elements(), log[..i]) && Undo(list.Elements(), log[..i]) == begin
        decreases i
      {
        i := i - 1;
        var op := log[i];
        assert log[..i + 1][..i] == log[..i] && log[..i + 1][i] == op;
        UndoLast(list.Elements(), log[..i + 1]);
        var ret := true;
        if op.kind.FindOp? {
          assert false;
        } else if op.kind.InsertOp? {
          ret := list.Insert(op.key);
        } else {
          ret := list.Delete(op.key);
        }
        assert ret;
      }
      assert log[..i] == [];
      log := [];
    }

    /** OnCommit: drop the log and keep the set; the next transaction starts from it. */
    method OnCommit()
      requires Valid()
      modifies this
      ensures Valid() && log == [] && begin == list.Elements()
    {
      log := [];
      begin := list.Elements();
    }
  }
}
