/**
 * BoostingMap (boosting/map/boostingmap.cc): transactional boosting of
 * the wait-free hash map.  Each operation locks its key, runs on the
 * table and logs the operation that undoes it; an abort replays the log
 * newest first and a commit drops it.  The map also counts commits,
 * aborts and "fake" aborts (those caused by a lock that could not be
 * obtained) in uint32_t counters.
 *
 * The wait-free hash table (boosting/map/nbmap.cc) is not part of this
 * model: it is a map from keys to values with the four operations the
 * boosted map calls, as they behave when no other thread interferes.
 * Whether a key lock is obtained is a parameter (`locked`).
 */
module BoostMap {
  import opened Unsigned

  /** ReturnCode */
  datatype ReturnCode = Ok | LockFail | OpFail

  /** OpType */
  datatype OpType = FindOp | InsertOp | DeleteOp | UpdateOp

  /** Operation: a logged inverse operation. */
  datatype Operation = Operation(kind: OpType, key: nat, val: nat, expected: nat, threadId: nat)

  /** What a call on the table returns, and the table after it. */
  datatype TableResult = TableResult(ok: bool, table: map<nat, nat>)

  /** putIfAbsent: add the key with `v` unless it is present. */
  function PutIfAbsent(t: map<nat, nat>, k: nat, v: nat): (r: TableResult)
    ensures r.ok <==> k !in t
    ensures r.table == if r.ok then t[k := v] else t
  {
    if k in t then TableResult(false, t) else TableResult(true, t[k := v])
  }

  /** get: the key's value, or 0 (a null VALUE) when it is absent. */
  function Get(t: map<nat, nat>, k: nat): (v: nat)
    ensures k !in t ==> v == 0
    ensures k in t ==> v == t[k]
  {
    if k in t then t[k] else 0
  }

  /** remove: drop the key if it is present. */
  function Remove(t: map<nat, nat>, k: nat): (r: TableResult)
    ensures r.ok <==> k in t
    ensures r.table == t - {k}
  {
    TableResult(k in t, t - {k})
  }

  /**
   * putUpdate: succeed at once when the expected and new values are the
   * same; else replace the value when the key holds the expected one.
   */
  function PutUpdate(t: map<nat, nat>, k: nat, e: nat, v: nat): (r: TableResult)
    ensures r.ok <==> e == v || (k in t && t[k] == e)
    ensures r.table == if r.ok && e != v then t[k := v] else t
  {
    if e == v then TableResult(true, t)
    else if k in t && t[k] == e then TableResult(true, t[k := v])
    else TableResult(false, t)
  }

  /** One step of OnAbort's replay. */
  function Replay(t: map<nat, nat>, op: Operation): (r: TableResult)
    ensures op.kind.FindOp? ==> !r.ok && r.table == t
  {
    match op.kind
    case FindOp => TableResult(false, t)
    case InsertOp => PutIfAbsent(t, op.key, op.val)
    case DeleteOp => Remove(t, op.key)
    case UpdateOp => PutUpdate(t, op.key, op.expected, op.val)
  }

  /** Replaying the log newest first. */
  function Undo(t: map<nat, nat>, log: seq<Operation>): map<nat, nat>
    decreases |log|
  {
    if |log| == 0 then t else Undo(Replay(t, log[|log| - 1]).table, log[..|log| - 1])
  }

  /** Every step of that replay succeeds. */
  predicate Replayable(t: map<nat, nat>, log: seq<Operation>)
    decreases |log|
  {
    |log| == 0 || (Replay(t, log[|log| - 1]).ok && Replayable(Replay(t, log[|log| - 1]).table, log[..|log| - 1]))
  }

  /** Logging an operation whose replay succeeds and undoes the last change keeps the log able to restore the start. */
  lemma LogInverse(t: map<nat, nat>, log: seq<Operation>, begin: map<nat, nat>, t1: map<nat, nat>, inverse: Operation)
    requires Replayable(t, log) && Undo(t, log) == begin
    requires Replay(t1, inverse).ok && Replay(t1, inverse).table == t
    ensures Replayable(t1, log + [inverse]) && Undo(t1, log + [inverse]) == begin
  {
    assert (log + [inverse])[..|log|] == log;
  }

  /**
   * The log entry Update writes as written: the new value in `val` and
   * the expected one in `expected`, the order of Operation's constructor.
   */
  function UpdateEntryAsWritten(key: nat, expected: nat, val: nat, threadId: nat): (op: Operation)
    ensures op.kind == UpdateOp && op.key == key && op.val == val && op.expected == expected
  {
    Operation(UpdateOp, key, val, expected, threadId)
  }

  /**
   * The log entry that undoes an update: the two values swapped, so the
   * replay expects the new value and puts back the old one.
   */
  function UpdateEntry(key: nat, expected: nat, val: nat, threadId: nat): (op: Operation)
    ensures op.kind == UpdateOp && op.key == key && op.val == expected && op.expected == val
  {
    Operation(UpdateOp, key, expected, val, threadId)
  }

  /**
   * Replaying the entry as written after an update that changed the
   * value fails and leaves the new value in place.
   */
  lemma UpdateUndoAsWritten(t: map<nat, nat>, key: nat, expected: nat, val: nat, threadId: nat)
    requires key in t && t[key] == expected && expected != val
    ensures var after := PutUpdate(t, key, expected, val).table;
      !Replay(after, UpdateEntryAsWritten(key, expected, val, threadId)).ok &&
      Replay(after, UpdateEntryAsWritten(key, expected, val, threadId)).table != t
  {
    var after := PutUpdate(t, key, expected, val).table;
    assert after[key] == val;
  }

  /** Replaying the swapped entry after any successful update succeeds and restores the table. */
  lemma UpdateUndoRestores(t: map<nat, nat>, key: nat, expected: nat, val: nat, threadId: nat)
    requires PutUpdate(t, key, expected, val).ok
    ensures var after := PutUpdate(t, key, expected, val).table;
      Replay(after, UpdateEntry(key, expected, val, threadId)).ok &&
      Replay(after, UpdateEntry(key, expected, val, threadId)).table == t
  {
    if expected != val {
      assert t[key := val][key := expected] == t;
    }
  }

  class BoostingMap {
    /** m_list: the wait-free hash table, as a map. */
    var table: map<nat, nat>
    /** m_log: the inverse operations of this transaction, oldest first. */
    var log: seq<Operation>
    /** The table when the current transaction started. */
    ghost var begin: map<nat, nat>
    /** g_count_commit, g_count_abort, g_count_fake_abort */
    var commits: nat
    var aborts: nat
    var fakeAborts: nat

    ghost predicate Valid()
      reads this
    {
      Replayable(table, log) && Undo(table, log) == begin &&
      commits < U32 && aborts < U32 && fakeAborts < U32
    }

    /** BoostingMap(): an empty table, counters at zero. */
    constructor()
      ensures Valid() && table == map[] && log == [] && commits == 0 && aborts == 0 && fakeAborts == 0
    {
      table := map[];
      log := [];
      begin := map[];
      commits, aborts, fakeAborts := 0, 0, 0;
    }

    /** Init: a fresh, empty log; the transaction starts from the current table. */
    method Init()
      requires commits < U32 && aborts < U32 && fakeAborts < U32
      modifies this
      ensures Valid() && log == [] && begin == table
      ensures table == old(table) && commits == old(commits) && aborts == old(aborts) && fakeAborts == old(fakeAborts)
    {
      log := [];
      begin := table;
    }

    /** Insert: LOCK_FAIL without the lock, OP_FAIL if the key is present, else add it and log its removal. */
    method Insert(key: nat, val: nat, threadId: nat, locked: bool) returns (ret: ReturnCode)
      requires Valid()
      modifies this
      ensures Valid() && begin == old(begin)
      ensures commits == old(commits) && aborts == old(aborts) && fakeAborts == old(fakeAborts)
      ensures ret == (if !locked then LockFail else if key in old(table) then OpFail else Ok)
      ensures table == if ret == Ok then old(table)[key := val] else old(table)
      ensures log == if ret == Ok then old(log) + [Operation(DeleteOp, key, 0, 0, threadId)] else old(log)
    {
      if !locked {
        return LockFail;
      }
      var r := PutIfAbsent(table, key, val);
      if !r.ok {
        return OpFail;
      }
      var entry := Operation(DeleteOp, key, 0, 0, threadId);
      assert table == r.table - {key};
      LogInverse(table, log, begin, r.table, entry);
      table := r.table;
      log := log + [entry];
      return Ok;
    }

    /**
     * Delete: LOCK_FAIL without the lock, OP_FAIL if the key is absent,
     * else remove it and log putting back the value read before.
     */
    method Delete(key: nat, threadId: nat, locked: bool) returns (ret: ReturnCode)
      requires Valid()
      modifies this
      ensures Valid() && begin == old(begin)
      ensures commits == old(commits) && aborts == old(aborts) && fakeAborts == old(fakeAborts)
      ensures ret == (if !locked then LockFail else if key !in old(table) then OpFail else Ok)
      ensures table == if ret == Ok then old(table) - {key} else old(table)
      ensures ret == Ok ==> log == old(log) + [Operation(InsertOp, key, old(table)[key], 0, threadId)]
      ensures ret != Ok ==> log == old(log)
    {
      if !locked {
        return LockFail;
      }
      var val := Get(table, key);
      var r := Remove(table, key);
      if !r.ok {
        return OpFail;
      }
      var entry := Operation(InsertOp, key, val, 0, threadId);
      assert r.table[key := val] == table;
      LogInverse(table, log, begin, r.table, entry);
      table := r.table;
      log := log + [entry];
      return Ok;
    }

    /** Find: LOCK_FAIL without the lock, OP_FAIL when get reads 0 (absent, or stored as 0), else OK. */
    method Find(key: nat, threadId: nat, locked: bool) returns (ret: ReturnCode)
      ensures ret == (if !locked then LockFail else if key !in table || table[key] == 0 then OpFail else Ok)
    {
      if !locked {
        return LockFail;
      }
      if Get(table, key) == 0 {
        return OpFail;
      }
      return Ok;
    }

    /**
     * Update: LOCK_FAIL without the lock, OP_FAIL unless the key holds
     * `expected` (or the two values are the same), else store `val` and
     * log the swapped entry, whose replay puts `expected` back.
     */
    method Update(key: nat, expected: nat, val: nat, threadId: nat, locked: bool) returns (ret: ReturnCode)
      requires Valid()
      modifies this
      ensures Valid() && begin == old(begin)
      ensures commits == old(commits) && aborts == old(aborts) && fakeAborts == old(fakeAborts)
      ensures ret == (if !locked then LockFail else if expected == val || (key in old(table) && old(table)[key] == expected) then Ok else OpFail)
      ensures table == if ret == Ok && expected != val then old(table)[key := val] else old(table)
      ensures log == if ret == Ok then old(log) + [UpdateEntry(key, expected, val, threadId)] else old(log)
    {
      if !locked {
        return LockFail;
      }
      var r := PutUpdate(table, key, expected, val);
      if !r.ok {
        return OpFail;
      }
      var entry := UpdateEntry(key, expected, val, threadId);
      UpdateUndoRestores(table, key, expected, val, threadId);
      LogInverse(table, log, begin, r.table, entry);
      table := r.table;
      log := log + [entry];
      return Ok;
    }

    /**
     * OnAbort: count the abort (and a fake abort when the transaction
     * stopped on a lock), replay the log newest first, every step
     * succeeding, which restores the table the transaction started from,
     * and empty the log.
     */
    method OnAbort(ret: ReturnCode)
      requires Valid()
      modifies this
      ensures Valid() && log == [] && table == old(begin) && begin == old(begin)
      ensures fakeAborts == if ret == LockFail then Inc32(old(fakeAborts)) else old(fakeAborts)
      ensures aborts == Inc32(old(aborts)) && commits == old(commits)
    {
      if ret == LockFail {
        fakeAborts := Inc32(fakeAborts);
      }
      aborts := Inc32(aborts);
      var i := |log|;
      assert log[..i] == log;
      while i > 0
        invariant 0 <= i <= |log| && log == old(log) && begin == old(begin)
        invariant commits == old(commits) && aborts == Inc32(old(aborts)) && commits < U32
        invariant fakeAborts == if ret == LockFail then Inc32(old(fakeAborts)) else old(fakeAborts)
        invariant Replayable(table, log[..i]) && Undo(table, log[..i]) == begin
        decreases i
      {
        i := i - 1;
        var op := log[i];
        assert log[..i + 1][..i] == log[..i] && log[..i + 1][i] == op;
        var r := Replay(table, op);
        if op.kind.FindOp? {
          assert false;
        }
        assert r.ok;
        table := r.table;
      }
      assert log[..i] == [];
      log := [];
    }

    /** OnCommit: count the commit, drop the log and keep the table. */
    method OnCommit()
      requires Valid()
      modifies this
      ensures Valid() && log == [] && table == old(table) && begin == table
      ensures commits == Inc32(old(commits)) && aborts == old(aborts) && fakeAborts == old(fakeAborts)
    {
      commits := Inc32(commits);
      log := [];
      begin := table;
    }
  }
}
