/**
 * TransSkip (translink/skiplist/transskip.cc): the lock-free skip list of
 * Fraser with transactions layered on it the same way as on the list.
 * Only the bottom level carries the set: a key is in the set when the
 * descriptor of its node says so (IsKeyExist), and the upper levels are
 * shortcuts to the bottom level.
 *
 * As for the list, the model runs one thread at a time, a
 * compare-and-swap is a comparison followed by a write, and the bottom
 * level is a sorted sequence of the non-sentinel nodes.  The skip list
 * differs from the list in what it reports: every operation, and help_ops
 * itself, returns true or false (a repeated operation returns true), and
 * help_ops does not first check whether the transaction it is asked to
 * help is still live.
 */
module TransSkipList {
  import opened Translink
  import opened Unsigned

  /** NUM_LEVELS */
  const NUM_LEVELS: nat := 20
  /** Desc::size is a uint8_t. */
  const MAX_SKIP_OPS: nat := 255

  /**
   * CALLER_TO_INTERNAL_KEY: keys are stored two above the caller's, which
   * keeps 0 for uninitialised fields and 1 for the head sentinel.
   */
  function CallerToInternal(k: nat): (i: nat)
    ensures i >= 2
  {
    k + 2
  }

  /** INTERNAL_TO_CALLER_KEY */
  function InternalToCaller(i: nat): (k: nat)
    requires i >= 2
  {
    i - 2
  }

  /**
   * The translation is a relabelling: it is undone by its inverse and
   * keeps the order of keys, so the model may keep nodes under the
   * caller's keys and still search by internal keys.
   */
  lemma KeyTranslation(a: nat, b: nat)
    ensures InternalToCaller(CallerToInternal(a)) == a
    ensures CallerToInternal(a) < CallerToInternal(b) <==> a < b
    ensures CallerToInternal(a) == CallerToInternal(b) <==> a == b
  {
  }

  /** Operator::key is a uint32_t; its internal key stays below the tail sentinel ~0UL. */
  predicate SkipOpsOk(ops: seq<Operator>)
  {
    |ops| <= MAX_SKIP_OPS && forall j :: 0 <= j < |ops| ==> ops[j].key < U32
  }

  /** The outcome code a true or false result stands for. */
  function Code(ok: bool): (c: ReturnCode)
    ensures c != Skip && (c == Ok <==> ok)
  {
    if ok then Ok else Fail
  }

  /** The number of consecutive one bits at the bottom of `x`. */
  function TrailingOnes(x: nat): nat
  {
    if x % 2 == 1 then 1 + TrailingOnes(x / 2) else 0
  }

  lemma {:induction false} TrailingOnesBound(x: nat, n: nat)
    requires x < Pow2(n)
    ensures TrailingOnes(x) <= n
  {
    if x % 2 == 1 {
      TrailingOnesBound(x / 2, n - 1);
    }
  }

  /**
   * get_level: one plus the number of trailing one bits among bits 4 .. 22
   * of the random word `rand`, so each further level is half as likely
   * and the level is between 1 and NUM_LEVELS.
   */
  method GetLevel(rand: nat) returns (l: nat)
    requires rand < U64
    ensures 1 <= l <= NUM_LEVELS
    ensures l == 1 + TrailingOnes((rand / 16) % Pow2(NUM_LEVELS - 1))
  {
    AndLowMask(rand / 16, NUM_LEVELS - 1, 64);
    var r := BitAnd(rand / 16, Pow2(NUM_LEVELS - 1) - 1, 64);
    ghost var r0 := r;
    TrailingOnesBound(r0, NUM_LEVELS - 1);
    l := 1;
    while r % 2 == 1
      invariant l + TrailingOnes(r) == 1 + TrailingOnes(r0)
      decreases r
    {
      l := l + 1;
      r := r / 2;
    }
  }

  /** A descriptor nobody has used yet does not change how the existing nodes read. */
  lemma SkipKeySetFresh(v: map<nat, NodeDesc>, status: map<DescId, Status>, descOps: map<DescId, seq<Operator>>,
                        desc: DescId, ops: seq<Operator>)
    requires ViewOk(v, status, descOps) && desc !in status && Untouched(v, desc)
    ensures ViewOk(v, status[desc := Active], descOps[desc := ops])
    ensures KeySet(v, status[desc := Active], descOps[desc := ops]) == KeySet(v, status, descOps)
  {
    forall k | k in v
      ensures DescOk(v[k], status[desc := Active], descOps[desc := ops])
      ensures IsKeyExist(v[k], status[desc := Active], descOps[desc := ops]) == IsKeyExist(v[k], status, descOps)
    {
    }
  }

  class TransSkip {
    /** The bottom level between the sentinels, in key order, under the caller's keys. */
    var nodes: seq<Node>
    /** Desc::status of every allocated descriptor. */
    var status: map<DescId, Status>
    /** Desc::ops of every allocated descriptor. */
    var descOps: map<DescId, seq<Operator>>
    /** The calling thread's help stack, outermost first. */
    var helpStack: seq<DescId>
    /** The next descriptor the allocator hands out. */
    var nextDesc: nat

    ghost predicate Valid()
      reads this
    {
      Sorted(nodes) &&
      status.Keys == descOps.Keys &&
      (forall d :: d in status ==> d < nextDesc) &&
      (forall d :: d in descOps ==> SkipOpsOk(descOps[d])) &&
      ViewOk(View(nodes), status, descOps)
    }

    /** The keys in the set, as the caller knows them. */
    ghost function Contents(): (s: set<nat>)
      reads this
      requires Valid()
    {
      KeySet(View(nodes), status, descOps)
    }

    ghost function StackSet(): set<DescId>
      reads this
    {
      set d | d in helpStack
    }

    ghost function Measure(): nat
      reads this
    {
      |Actives(status) - StackSet()|
    }

    /**
     * One more than Measure for a finished transaction: help_ops may be
     * asked to help one, and then pushes it without shrinking Measure.
     */
    ghost function Idle(d: DescId): nat
      reads this
    {
      if d in status && status[d] == Active then 0 else 1
    }

    twostate predicate Grows()
      reads this
    {
      Evolves(old(status), status, View(old(nodes)), View(nodes)) &&
      descOps == old(descOps) && helpStack == old(helpStack) && nextDesc == old(nextDesc)
    }

    /** Nothing changed at all. */
    twostate predicate Unchanged()
      reads this
    {
      nodes == old(nodes) && status == old(status) && descOps == old(descOps) && helpStack == old(helpStack) && nextDesc == old(nextDesc)
    }

    twostate predicate OnlyNodes()
      reads this
    {
      status == old(status) && descOps == old(descOps) && helpStack == old(helpStack) && nextDesc == old(nextDesc)
    }

    /** transskip_alloc: the two sentinels only, so the set is empty. */
    constructor()
      ensures Valid() && Contents() == {}
      ensures nodes == [] && status == map[] && descOps == map[] && helpStack == []
    {
      nodes := [];
      status := map[];
      descOps := map[];
      helpStack := [];
      nextDesc := 0;
    }

    /** A fresh LIVE descriptor holding `ops`; the set reads as before. */
    method AllocateDesc(ops: seq<Operator>) returns (desc: DescId)
      requires Valid() && SkipOpsOk(ops)
      modifies this
      ensures Valid() && desc !in old(status)
      ensures status == old(status)[desc := Active] && descOps == old(descOps)[desc := ops]
      ensures nodes == old(nodes) && helpStack == old(helpStack)
      ensures Untouched(View(nodes), desc) && Contents() == old(Contents())
    {
      desc := nextDesc;
      SkipKeySetFresh(View(nodes), status, descOps, desc, ops);
      status := status[desc := Active];
      descOps := descOps[desc := ops];
      nextDesc := nextDesc + 1;
    }

    /**
     * weak_search_predecessors on the bottom level: the position of the
     * first node whose internal key is not below that of `key`.
     */
    method SearchPredecessors(key: nat) returns (i: nat)
      requires Sorted(nodes)
      ensures i <= |nodes|
      ensures forall j :: 0 <= j < i ==> nodes[j].key < key
      ensures i < |nodes| ==> nodes[i].key >= key
      ensures key in View(nodes) <==> i < |nodes| && nodes[i].key == key
    {
      i := 0;
      while i < |nodes| && CallerToInternal(nodes[i].key) < CallerToInternal(key)
        invariant i <= |nodes|
        invariant forall j :: 0 <= j < i ==> nodes[j].key < key
      {
        i := i + 1;
      }
      ViewAtPosition(nodes, i, key);
    }

    /**
     * execute_ops: run the transaction from a clean help stack and return
     * what help_ops returns.  A transaction that another thread has
     * already finished is reported as succeeding, even an aborted one
     * (see SkipExecuteOpsChecked).  Unhindered, the transaction is atomic
     * and the result says whether it committed.
     */
    method ExecuteOps(desc: DescId) returns (r: bool)
      requires Valid() && desc in status
      modifies this
      ensures Valid() && helpStack == [] && desc in status && status[desc] != Active
      ensures old(status[desc]) != Active ==> r && status == old(status) && nodes == old(nodes)
      ensures old(status[desc]) == Active && QuietFor(old(status), desc) && Untouched(View(old(nodes)), desc) ==>
        status == old(status)[desc := status[desc]] && (r <==> status[desc] == Committed) &&
        TxnOutcome(old(Contents()), descOps[desc], r, Contents())
    {
      helpStack := [];
      r := HelpOps(desc, 0);
      assert descOps[desc][0..] == descOps[desc];
    }

    /**
     * execute_ops reporting the transaction's final status, as the list's
     * ExecuteOps does: true exactly when it committed.
     */
    method ExecuteOpsChecked(desc: DescId) returns (r: bool)
      requires Valid() && desc in status
      modifies this
      ensures Valid() && helpStack == [] && desc in status && status[desc] != Active
      ensures r <==> status[desc] == Committed
      ensures old(status[desc]) != Active ==> status == old(status) && nodes == old(nodes)
      ensures old(status[desc]) == Active && QuietFor(old(status), desc) && Untouched(View(old(nodes)), desc) ==>
        status == old(status)[desc := status[desc]] && TxnOutcome(old(Contents()), descOps[desc], r, Contents())
    {
      helpStack := [];
      var helped := HelpOps(desc, 0);
      r := status[desc] == Committed;
      assert descOps[desc][0..] == descOps[desc];
    }

    /**
     * help_ops: a transaction already on the help stack (a cycle) is
     * aborted if still live and false is returned; otherwise it is pushed,
     * its operations from `opid` run while it is live and they succeed,
     * it is popped and, if still live, committed after success and
     * aborted after a failure, and the last operation's result returned.
     */
    method HelpOps(desc: DescId, opid: nat) returns (r: bool)
      requires Valid() && desc in status && opid <= |descOps[desc]|
      modifies this
      decreases Measure() + Idle(desc), 1
      ensures Valid() && Grows()
      ensures desc in status && status[desc] != Active
      ensures desc in old(helpStack) ==>
        !r && nodes == old(nodes) && status == old(status)[desc := if old(status[desc]) == Active then Aborted else old(status[desc])]
      ensures old(status[desc]) != Active && desc !in old(helpStack) ==> r && Unchanged()
      ensures Unchanged() || Actives(status) < old(Actives(status))
      ensures old(status[desc]) == Active && desc !in old(helpStack) &&
              QuietFor(old(status), desc) && Untouched(View(old(nodes)), desc) ==>
        status == old(status)[desc := status[desc]] && (r <==> status[desc] == Committed) &&
        TxnOutcome(old(Contents()), descOps[desc][opid..], status[desc] == Committed, Contents())
    {
      if desc in helpStack {
        if status[desc] == Active {
          status := status[desc := Aborted];
          assert Actives(status) == old(Actives(status)) - {desc};
        }
        return false;
      }
      r := HelpRun(desc, opid);
    }

    /** help_ops for a transaction this thread is not yet helping: push it, then run and finish it. */
    method HelpRun(desc: DescId, opid: nat) returns (r: bool)
      requires Valid() && desc in status && desc !in helpStack && opid <= |descOps[desc]|
      modifies this
      decreases Measure() + Idle(desc), 0
      ensures Valid() && Grows()
      ensures desc in status && status[desc] != Active
      ensures old(status[desc]) == Active ==> Actives(status) < old(Actives(status))
      ensures old(status[desc]) != Active ==> r && Unchanged()
      ensures old(status[desc]) == Active && QuietFor(old(status), desc) && Untouched(View(old(nodes)), desc) ==>
        status == old(status)[desc := status[desc]] && (r <==> status[desc] == Committed) &&
        TxnOutcome(old(Contents()), descOps[desc][opid..], status[desc] == Committed, Contents())
    {
      helpStack := helpStack + [desc];
      assert StackSet() == old(StackSet()) + {desc};
      if status[desc] == Active {
        PushShrinksMeasure(Actives(status), Actives(status), old(StackSet()), desc);
      } else {
        assert Actives(status) - StackSet() == Actives(status) - old(StackSet());
      }
      ghost var pushed := helpStack;
      r := HelpBody(desc, opid);
      assert pushed[..|pushed| - 1] == old(helpStack);
    }

    /** help_ops once the transaction is on the help stack: run its operations, pop it and finish it. */
    method HelpBody(desc: DescId, opid: nat) returns (r: bool)
      requires Valid() && desc in status && opid <= |descOps[desc]| && |helpStack| > 0
      modifies this
      decreases Measure(), 8
      ensures Valid() && Evolves(old(status), status, View(old(nodes)), View(nodes))
      ensures descOps == old(descOps) && nextDesc == old(nextDesc) && helpStack == old(helpStack[..|helpStack| - 1])
      ensures desc in status && status[desc] != Active
      ensures old(status[desc]) == Active ==> Actives(status) < old(Actives(status))
      ensures old(status[desc]) != Active ==> r && status == old(status) && nodes == old(nodes)
      ensures old(status[desc]) == Active && QuietFor(old(status), desc) && Untouched(View(old(nodes)), desc) ==>
        status == old(status)[desc := status[desc]] && (r <==> status[desc] == Committed) &&
        TxnOutcome(old(Contents()), descOps[desc][opid..], status[desc] == Committed, Contents())
    {
      ghost var quiet := status[desc] == Active && QuietFor(status, desc) && Untouched(View(nodes), desc);
      ghost var s0 := Contents();
      ghost var st0, v0 := status, View(nodes);
      var ret, i := RunOps(desc, opid);
      ghost var st1, v1 := status, View(nodes);
      assert Evolves(st0, st1, v0, v1);
      HelpOpsFinish(desc, opid, i, ret, quiet, s0);
      EvolvesTransitive(st0, st1, status, v0, v1, View(nodes));
      if st0[desc] == Active {
        FinishingStrictlyShrinks(Actives(st0), Actives(st1), Actives(status), desc);
      }
      r := ret;
    }

    /**
     * The loop of help_ops: run the operations from `opid` while the
     * transaction is live and the last one succeeded.  It does nothing for
     * a finished transaction; unhindered, it makes Progress.
     */
    method RunOps(desc: DescId, opid: nat) returns (ret: bool, i: nat)
      requires Valid() && desc in status && opid <= |descOps[desc]|
      modifies this
      decreases Measure(), 7
      ensures Valid() && Grows() && desc in status
      ensures opid <= i <= |descOps[desc]|
      ensures ret && status[desc] == Active ==> i == |descOps[desc]|
      ensures old(status[desc]) != Active ==> ret && i == opid && status == old(status) && nodes == old(nodes)
      ensures old(status[desc]) == Active && QuietFor(old(status), desc) && Untouched(View(old(nodes)), desc) ==>
        status == old(status) && Progress(View(nodes), status, descOps, desc, opid, i, old(Contents()), Code(ret))
    {
      ghost var quiet := status[desc] == Active && QuietFor(status, desc) && Untouched(View(nodes), desc);
      ghost var s0 := Contents();
      var ops := descOps[desc];
      if quiet {
        ProgressStart(View(nodes), status, descOps, desc, opid, s0);
      }
      ghost var st0, v0 := status, View(nodes);
      ret := true;
      i := opid;
      while status[desc] == Active && ret && i < |ops|
        invariant Valid() && opid <= i <= |ops| && desc in status
        invariant Evolves(st0, status, v0, View(nodes)) && descOps == old(descOps) && helpStack == old(helpStack) && nextDesc == old(nextDesc)
        invariant Measure() <= old(Measure())
        invariant st0[desc] != Active ==> ret && i == opid && status == st0 && nodes == old(nodes)
        invariant quiet ==> status == st0 && Progress(View(nodes), status, descOps, desc, opid, i, s0, Code(ret))
        decreases |ops| - i
      {
        var next := i + 1;
        ret := RunStep(desc, opid, i, next, quiet, s0, st0, v0);
        i := next;
      }
    }

    /** One pass of help_ops's loop: perform operation `i`. */
    method RunStep(desc: DescId, opid: nat, i: nat, next: nat, ghost quiet: bool, ghost s0: set<nat>,
                   ghost st0: map<DescId, Status>, ghost v0: map<nat, NodeDesc>) returns (ret: bool)
      requires Valid() && desc in status && opid <= i < |descOps[desc]| && next == i + 1
      requires Evolves(st0, status, v0, View(nodes))
      requires quiet ==> status == st0 && status[desc] == Active && QuietFor(status, desc) &&
                         Progress(View(nodes), status, descOps, desc, opid, i, s0, Ok)
      modifies this
      decreases Measure(), 6
      ensures Valid() && desc in status && Evolves(st0, status, v0, View(nodes))
      ensures descOps == old(descOps) && helpStack == old(helpStack) && nextDesc == old(nextDesc)
      ensures Measure() <= old(Measure())
      ensures quiet ==> status == st0 && Progress(View(nodes), status, descOps, desc, opid, next, s0, Code(ret))
    {
      ghost var v, st := View(nodes), status;
      ret := RunOp(desc, i);
      EvolvesTransitive(st0, st, status, v0, v, View(nodes));
      FinishingShrinksMeasure(Actives(st), Actives(status), StackSet());
      if quiet {
        var op := descOps[desc][i];
        ClaimResultCode(v, View(nodes), op.key in s0, true, op.key, NodeDesc(desc, i), !op.kind.Insert?, ret);
        QuietStep(v, View(nodes), status, descOps, desc, opid, i, next, s0, Code(ret));
      }
    }

    /** The body of help_ops's loop: an insert, or a delete or find (whose code is the same). */
    method RunOp(desc: DescId, opid: nat) returns (ret: bool)
      requires Valid() && desc in status && opid < |descOps[desc]|
      modifies this
      decreases Measure(), 5
      ensures Valid() && Grows()
      ensures QuietFor(old(status), desc) ==>
        status == old(status) &&
        ClaimResult(View(old(nodes)), View(nodes), descOps[desc][opid].key in old(Contents()), old(status[desc]) == Active,
                    descOps[desc][opid].key, NodeDesc(desc, opid), !descOps[desc][opid].kind.Insert?, ret)
    {
      var op := descOps[desc][opid];
      if op.kind.Insert? {
        ret := Insert(op.key, desc, opid);
      } else {
        ret := ClaimPresent(op.key, desc, opid);
      }
    }

    /** The end of help_ops: pop the stack, then commit after success or abort after a failure, if still live. */
    method HelpOpsFinish(desc: DescId, opid: nat, i: nat, ret: bool, ghost quiet: bool, ghost s0: set<nat>)
      requires Valid() && desc in status && opid <= i <= |descOps[desc]| && |helpStack| > 0
      requires ret && status[desc] == Active ==> i == |descOps[desc]|
      requires quiet ==> status[desc] == Active && Progress(View(nodes), status, descOps, desc, opid, i, s0, Code(ret))
      modifies this
      ensures Valid() && desc in status && status[desc] != Active
      ensures nodes == old(nodes) && descOps == old(descOps) && nextDesc == old(nextDesc)
      ensures helpStack == old(helpStack[..|helpStack| - 1])
      ensures status == old(status)[desc := status[desc]] && Evolves(old(status), status, View(nodes), View(nodes))
      ensures Actives(status) == old(Actives(status)) - {desc}
      ensures old(status[desc]) != Active ==> status == old(status)
      ensures old(status[desc]) == Active ==> (status[desc] == Committed <==> ret)
      ensures quiet ==> TxnOutcome(s0, descOps[desc][opid..], status[desc] == Committed, Contents())
    {
      helpStack := helpStack[..|helpStack| - 1];
      var ops := descOps[desc];
      if status[desc] != Active {
        return;
      }
      if ret {
        status := status[desc := Committed];
        assert ops[opid..i] == ops[opid..];
      } else {
        KeySetSameCommits(View(nodes), old(status), status[desc := Aborted], descOps);
        status := status[desc := Aborted];
        if quiet {
          assert ops[opid..][..i - opid] == ops[opid..i];
          FailingPrefix(s0, ops[opid..], i - opid);
        }
      }
    }

    /**
     * FinishPendingTxn: help the transaction that claimed a node past the
     * operation that claimed it, but never the caller's own and only while
     * it is live.  (It always reports success, so its callers' failure
     * branches are dead and not modelled.)
     */
    method FinishPendingTxn(nd: NodeDesc, desc: DescId)
      requires Valid() && DescOk(nd, status, descOps) && desc in status
      modifies this
      decreases Measure(), 2
      ensures Valid() && Grows()
      ensures Unchanged() || Actives(status) < old(Actives(status))
      ensures nd.desc == desc || old(status[nd.desc]) != Active ==> Unchanged()
    {
      if nd.desc == desc {
        return;
      }
      if status[nd.desc] == Active {
        var helped := HelpOps(nd.desc, nd.opid + 1);
      }
    }

    /**
     * The part insert, delete and find share for a key that has a node:
     * help its transaction, then try to claim it, or retry when helping
     * changed the node.
     */
    method ClaimExisting(key: nat, i: nat, desc: DescId, opid: nat, wantPresent: bool) returns (ok: bool, retry: bool)
      requires Valid() && desc in status && opid < |descOps[desc]|
      requires i < |nodes| && nodes[i].key == key
      modifies this
      decreases Measure(), 3
      ensures Valid() && Grows()
      ensures retry ==> Actives(status) < old(Actives(status))
      ensures QuietFor(old(status), desc) ==>
        !retry && status == old(status) &&
        ClaimResult(View(old(nodes)), View(nodes), key in old(Contents()), old(status[desc]) == Active,
                    key, NodeDesc(desc, opid), wantPresent, ok)
    {
      ViewHas(nodes, i);
      var oldDesc := nodes[i].nodeDesc;
      FinishingShrinksMeasure(Actives(status), Actives(status), StackSet());
      ghost var st, v := status, View(nodes);
      FinishPendingTxn(oldDesc, desc);
      ghost var st1, v1 := status, View(nodes);
      ok, retry := TryClaim(key, oldDesc, desc, opid, wantPresent);
      assert Evolves(st1, status, v1, View(nodes));
      EvolvesTransitive(st, st1, status, v, v1, View(nodes));
    }

    /**
     * One attempt to claim the node of `key`, last seen carrying
     * `oldDesc`: the same operation succeeds at once; a key whose presence
     * is not the wanted one, or a transaction no longer live, fails; else
     * the compare-and-swap succeeds exactly when the node still carries
     * `oldDesc`, and otherwise the caller retries.
     */
    method TryClaim(key: nat, oldDesc: NodeDesc, desc: DescId, opid: nat, wantPresent: bool) returns (ok: bool, retry: bool)
      requires Valid() && desc in status && opid < |descOps[desc]|
      requires key in View(nodes) && DescOk(oldDesc, status, descOps)
      modifies this
      ensures Valid() && OnlyNodes()
      ensures var nd := NodeDesc(desc, opid);
        if oldDesc == nd then ok && !retry
        else if IsKeyExist(oldDesc, status, descOps) != wantPresent || status[desc] != Active then !ok && !retry
        else if View(old(nodes))[key] != oldDesc then retry
        else ok && !retry
      ensures View(nodes) == if ok && !retry && oldDesc != NodeDesc(desc, opid) then View(old(nodes))[key := NodeDesc(desc, opid)] else View(old(nodes))
    {
      var nd := NodeDesc(desc, opid);
      if IsSameOperation(oldDesc, nd) {
        return true, false;
      }
      if IsKeyExist(oldDesc, status, descOps) != wantPresent || status[desc] != Active {
        return false, false;
      }
      var j := SearchPredecessors(key);
      ViewHas(nodes, j);
      if nodes[j].nodeDesc != oldDesc {
        return false, true;
      }
      ViewUpdate(nodes, j, nd);
      KeySetUpdate(View(nodes), key, nd, status, descOps);
      nodes := nodes[j := Node(key, nd)];
      return true, false;
    }

    /** The successful compare-and-swap at the bottom level: link a new node in before position `i`. */
    method LinkNode(i: nat, n: Node)
      requires Valid() && DescOk(n.nodeDesc, status, descOps) && i <= |nodes|
      requires forall j :: 0 <= j < i ==> nodes[j].key < n.key
      requires i < |nodes| ==> n.key < nodes[i].key
      modifies this
      ensures Valid() && OnlyNodes()
      ensures nodes == old(nodes[..i] + [n] + nodes[i..])
      ensures View(nodes) == View(old(nodes))[n.key := n.nodeDesc]
    {
      ViewInsert(nodes, i, n);
      KeySetUpdate(View(nodes), n.key, n.nodeDesc, status, descOps);
      nodes := nodes[..i] + [n] + nodes[i..];
    }

    /**
     * transskip_insert: a key without a node gets a new node carrying this
     * operation if the transaction is still live; a key with a node is
     * claimed when it reads as absent.
     */
    method Insert(key: nat, desc: DescId, opid: nat) returns (ok: bool)
      requires Valid() && desc in status && opid < |descOps[desc]|
      modifies this
      decreases Measure(), 4
      ensures Valid() && Grows()
      ensures QuietFor(old(status), desc) ==>
        status == old(status) &&
        ClaimResult(View(old(nodes)), View(nodes), key in old(Contents()), old(status[desc]) == Active,
                    key, NodeDesc(desc, opid), false, ok)
    {
      while true
        invariant Valid() && Grows() && desc in status
        invariant QuietFor(old(status), desc) ==> Unchanged()
        decreases |Actives(status)|
      {
        var i := SearchPredecessors(key);
        if !(i < |nodes| && nodes[i].key == key) {
          if status[desc] != Active {
            return false;
          }
          LinkNode(i, Node(key, NodeDesc(desc, opid)));
          return true;
        }
        ghost var a := Actives(status);
        EvolvesActives(old(status), status, View(old(nodes)), View(nodes));
        FinishingShrinksMeasure(old(Actives(status)), a, StackSet());
        var retry;
        ghost var st, v := status, View(nodes);
        ok, retry := ClaimExisting(key, i, desc, opid, false);
        EvolvesTransitive(old(status), st, status, View(old(nodes)), v, View(nodes));
        if !retry {
          return;
        }
        SubsetCard(Actives(status), a);
      }
    }

    /**
     * transskip_delete and transskip_find: a key without a node fails; a
     * key with a node is claimed when it reads as present.
     */
    method ClaimPresent(key: nat, desc: DescId, opid: nat) returns (ok: bool)
      requires Valid() && desc in status && opid < |descOps[desc]|
      modifies this
      decreases Measure(), 4
      ensures Valid() && Grows()
      ensures QuietFor(old(status), desc) ==>
        status == old(status) &&
        ClaimResult(View(old(nodes)), View(nodes), key in old(Contents()), old(status[desc]) == Active,
                    key, NodeDesc(desc, opid), true, ok)
    {
      while true
        invariant Valid() && Grows() && desc in status
        invariant QuietFor(old(status), desc) ==> Unchanged()
        decreases |Actives(status)|
      {
        var i := SearchPredecessors(key);
        if !(i < |nodes| && nodes[i].key == key) {
          return false;
        }
        ghost var a := Actives(status);
        EvolvesActives(old(status), status, View(old(nodes)), View(nodes));
        FinishingShrinksMeasure(old(Actives(status)), a, StackSet());
        var retry;
        ghost var st, v := status, View(nodes);
        ok, retry := ClaimExisting(key, i, desc, opid, true);
        EvolvesTransitive(old(status), st, status, View(old(nodes)), v, View(nodes));
        if !retry {
          return;
        }
        SubsetCard(Actives(status), a);
      }
    }
  }
}
