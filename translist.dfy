/**
 * TransList (translink/list/translist.cc): a lock-free linked list of
 * integer keys whose operations are grouped into transactions.  A
 * transaction claims the node of each of its keys by swinging the node's
 * descriptor to its own (transaction, operation) pair; a thread that
 * finds a node claimed by an unfinished transaction first helps that
 * transaction to its end, and a transaction it meets again while helping
 * (a cycle) is aborted.  Whether a key is in the set is read off the
 * node's descriptor (IsKeyExist), so committing or aborting a whole
 * transaction is a single status change.
 *
 * The model runs one thread at a time: a compare-and-swap is a comparison
 * followed by a write.  Interleavings of other threads are reflected only
 * through the helping they leave behind (unfinished descriptors), which
 * the model lets the caller set up.  The list is a sorted sequence of
 * the non-sentinel nodes.
 */
module TransLinkList {
  import opened Translink

  /** Key of the head sentinel. */
  const HEAD_KEY: nat := 0
  /** Key of the tail sentinel. */
  const TAIL_KEY: nat := 0xffff_ffff
  /** Desc::size is a uint8_t. */
  const MAX_OPS: nat := 255

  /** A key a transaction may use: strictly between the two sentinels. */
  predicate ValidKey(k: nat)
  {
    HEAD_KEY < k < TAIL_KEY
  }

  /** The operations a descriptor can hold. */
  predicate OpsOk(ops: seq<Operator>)
  {
    |ops| <= MAX_OPS && forall j :: 0 <= j < |ops| ==> ValidKey(ops[j].key)
  }

  /** A descriptor nobody has used yet does not change how the existing nodes read. */
  lemma KeySetFresh(v: map<nat, NodeDesc>, status: map<DescId, Status>, descOps: map<DescId, seq<Operator>>,
                    desc: DescId, ops: seq<Operator>)
    requires ViewOk(v, status, descOps) && desc !in status && Untouched(v, desc)
    ensures ViewOk(v, status[desc := Active], descOps[desc := ops])
    ensures KeySet(v, status[desc := Active], descOps[desc := ops]) == KeySet(v, status, descOps)
  {
  }

  class TransList {
    /** The nodes between the sentinels, in list order. */
    var nodes: seq<Node>
    /** Desc::status of every allocated descriptor. */
    var status: map<DescId, Status>
    /** Desc::ops of every allocated descriptor. */
    var descOps: map<DescId, seq<Operator>>
    /** The calling thread's help stack: the transactions it is helping, outermost first. */
    var helpStack: seq<DescId>
    /** The next descriptor the allocator hands out. */
    var nextDesc: nat

    ghost predicate Valid()
      reads this
    {
      Sorted(nodes) &&
      status.Keys == descOps.Keys &&
      (forall d :: d in status ==> d < nextDesc) &&
      (forall d :: d in descOps ==> OpsOk(descOps[d])) &&
      ViewOk(View(nodes), status, descOps)
    }

    /** The keys in the set. */
    ghost function Contents(): (s: set<nat>)
      reads this
      requires Valid()
    {
      KeySet(View(nodes), status, descOps)
    }

    ghost function StackSet(): set<DescId>
      reads this
    {
      set d | d in helpStack
    }

    /** Active transactions this thread is not already helping: what helping can still wait for. */
    ghost function Measure(): nat
      reads this
    {
      |Actives(status) - StackSet()|
    }

    /**
     * What any operation may do to the shared state: the list and the
     * statuses evolve, and the descriptors and the help stack are as they
     * were.
     */
    twostate predicate Grows()
      reads this
    {
      Evolves(old(status), status, View(old(nodes)), View(nodes)) &&
      descOps == old(descOps) && helpStack == old(helpStack) && nextDesc == old(nextDesc)
    }

    /** Only the list may have changed. */
    twostate predicate OnlyNodes()
      reads this
    {
      status == old(status) && descOps == old(descOps) && helpStack == old(helpStack) && nextDesc == old(nextDesc)
    }

    /** TransList: the two sentinels only, so the set is empty. */
    constructor()
      ensures Valid() && Contents() == {}
      ensures nodes == [] && status == map[] && descOps == map[] && helpStack == []
    {
      nodes := [];
      status := map[];
      descOps := map[];
      helpStack := [];
      nextDesc := 0;
    }

    /**
     * AllocateDesc: a fresh ACTIVE descriptor holding `ops` (the caller
     * fills the operations in).  No node refers to it yet, so the set
     * reads as before.
     */
    method AllocateDesc(ops: seq<Operator>) returns (desc: DescId)
      requires Valid() && OpsOk(ops)
      modifies this
      ensures Valid() && desc !in old(status)
      ensures status == old(status)[desc := Active] && descOps == old(descOps)[desc := ops]
      ensures nodes == old(nodes) && helpStack == old(helpStack)
      ensures Untouched(View(nodes), desc) && Contents() == old(Contents())
    {
      desc := nextDesc;
      KeySetFresh(View(nodes), status, descOps, desc, ops);
      status := status[desc := Active];
      descOps := descOps[desc := ops];
      nextDesc := nextDesc + 1;
    }

    /**
     * LocatePred: the position of the first node whose key is not below
     * `key` (its predecessor is the node before, or the head).  That node
     * holds `key` exactly when the key has a node.
     */
    method LocatePred(key: nat) returns (i: nat)
      requires Sorted(nodes)
      ensures i <= |nodes|
      ensures forall j :: 0 <= j < i ==> nodes[j].key < key
      ensures i < |nodes| ==> nodes[i].key >= key
      ensures key in View(nodes) <==> i < |nodes| && nodes[i].key == key
    {
      i := 0;
      while i < |nodes| && nodes[i].key < key
        invariant i <= |nodes|
        invariant forall j :: 0 <= j < i ==> nodes[j].key < key
      {
        i := i + 1;
      }
      ViewAtPosition(nodes, i, key);
    }

    /**
     * ExecuteOps: run the transaction from a clean help stack and report
     * whether it did not abort.  Whatever the other threads left behind,
     * the transaction ends finished.  When no other transaction is
     * unfinished and the descriptor is fresh, the transaction is atomic:
     * it commits exactly when every operation succeeds against the set it
     * started from, and the set is then that set with the operations
     * applied; otherwise the set is unchanged.
     */
    method ExecuteOps(desc: DescId) returns (r: bool)
      requires Valid() && desc in status
      modifies this
      ensures Valid() && helpStack == [] && desc in status && status[desc] != Active
      ensures r <==> status[desc] == Committed
      ensures old(status[desc]) == Active && QuietFor(old(status), desc) && Untouched(View(old(nodes)), desc) ==>
        status == old(status)[desc := status[desc]] && TxnOutcome(old(Contents()), descOps[desc], r, Contents())
    {
      helpStack := [];
      HelpOps(desc, 0);
      r := status[desc] != Aborted;
      assert descOps[desc][0..] == descOps[desc];
    }

    /**
     * HelpOps: unless the transaction has finished, abort it if this
     * thread is already helping it (a cycle);
     * otherwise run its remaining operations from `opid` until one fails
     * or the transaction is finished by someone else, then commit it if
     * none failed and abort it otherwise.  Either way it ends finished.
     */
    method HelpOps(desc: DescId, opid: nat)
      requires Valid() && desc in status && opid <= |descOps[desc]|
      modifies this
      decreases Measure(), 1
      ensures Valid() && Grows()
      ensures desc in status && status[desc] != Active
      ensures old(status[desc]) != Active ==> unchanged(this)
      ensures old(status[desc]) == Active && desc in old(helpStack) ==>
        nodes == old(nodes) && status == old(status)[desc := Aborted]
      ensures unchanged(this) || Actives(status) < old(Actives(status))
      ensures old(status[desc]) == Active && desc !in old(helpStack) &&
              QuietFor(old(status), desc) && Untouched(View(old(nodes)), desc) ==>
        status == old(status)[desc := status[desc]] &&
        TxnOutcome(old(Contents()), descOps[desc][opid..], status[desc] == Committed, Contents())
    {
      if status[desc] != Active {
        return;
      }
      if desc in helpStack {
        status := status[desc := Aborted];
        assert Actives(status) == old(Actives(status)) - {desc};
        return;
      }
      HelpRun(desc, opid);
    }

    /**
     * HelpOps for an active transaction this thread is not yet helping:
     * push it, run its remaining operations, pop it, and finish it.
     */
    method HelpRun(desc: DescId, opid: nat)
      requires Valid() && desc in status && status[desc] == Active && desc !in helpStack && opid <= |descOps[desc]|
      modifies this
      decreases Measure(), 0
      ensures Valid() && Grows()
      ensures desc in status && status[desc] != Active && Actives(status) < old(Actives(status))
      ensures QuietFor(old(status), desc) && Untouched(View(old(nodes)), desc) ==>
        status == old(status)[desc := status[desc]] &&
        TxnOutcome(old(Contents()), descOps[desc][opid..], status[desc] == Committed, Contents())
    {
      helpStack := helpStack + [desc];
      assert StackSet() == old(StackSet()) + {desc};
      PushShrinksMeasure(Actives(status), Actives(status), old(StackSet()), desc);
      HelpBody(desc, opid);
      assert helpStack == old(helpStack);
    }

    /** HelpOps once the transaction is on the help stack: run its operations, pop it and finish it. */
    method HelpBody(desc: DescId, opid: nat)
      requires Valid() && desc in status && status[desc] == Active && opid <= |descOps[desc]| && |helpStack| > 0
      modifies this
      decreases Measure(), 8
      ensures Valid() && Evolves(old(status), status, View(old(nodes)), View(nodes))
      ensures descOps == old(descOps) && nextDesc == old(nextDesc) && helpStack == old(helpStack[..|helpStack| - 1])
      ensures desc in status && status[desc] != Active && Actives(status) < old(Actives(status))
      ensures QuietFor(old(status), desc) && Untouched(View(old(nodes)), desc) ==>
        status == old(status)[desc := status[desc]] &&
        TxnOutcome(old(Contents()), descOps[desc][opid..], status[desc] == Committed, Contents())
    {
      ghost var quiet := QuietFor(status, desc) && Untouched(View(nodes), desc);
      ghost var s0 := Contents();
      ghost var st0, v0 := status, View(nodes);
      var ret, i := RunOps(desc, opid);
      ghost var st1, v1 := status, View(nodes);
      assert Evolves(st0, st1, v0, v1);
      HelpOpsFinish(desc, opid, i, ret, quiet, s0);
      EvolvesTransitive(st0, st1, status, v0, v1, View(nodes));
      FinishingStrictlyShrinks(Actives(st0), Actives(st1), Actives(status), desc);
    }

    /**
     * The loop of HelpOps: run the transaction's operations from `opid`
     * while it is active and none has failed.  Unhindered, the set read
     * with the transaction open stays the starting set, and read as
     * committed it is the starting set with the operations done so far
     * applied.
     */
    method RunOps(desc: DescId, opid: nat) returns (ret: ReturnCode, i: nat)
      requires Valid() && desc in status && opid <= |descOps[desc]|
      modifies this
      decreases Measure(), 7
      ensures Valid() && Grows() && desc in status
      ensures opid <= i <= |descOps[desc]|
      ensures ret != Fail && status[desc] == Active ==> i == |descOps[desc]|
      ensures old(status[desc]) == Active && QuietFor(old(status), desc) && Untouched(View(old(nodes)), desc) ==>
        status == old(status) && Progress(View(nodes), status, descOps, desc, opid, i, old(Contents()), ret)
    {
      ghost var quiet := status[desc] == Active && QuietFor(status, desc) && Untouched(View(nodes), desc);
      ghost var s0 := Contents();
      var ops := descOps[desc];
      if quiet {
        ProgressStart(View(nodes), status, descOps, desc, opid, s0);
      }
      ghost var st0, v0 := status, View(nodes);
      ret := Ok;
      i := opid;
      while status[desc] == Active && ret != Fail && i < |ops|
        invariant Valid() && opid <= i <= |ops| && desc in status
        invariant Evolves(st0, status, v0, View(nodes)) && descOps == old(descOps) && helpStack == old(helpStack) && nextDesc == old(nextDesc)
        invariant Measure() <= old(Measure())
        invariant quiet ==> status == st0 && ret != Skip && Progress(View(nodes), status, descOps, desc, opid, i, s0, ret)
        decreases |ops| - i
      {
        var next := i + 1;
        ret := RunStep(desc, opid, i, next, quiet, s0, st0, v0);
        i := next;
      }
    }

    /**
     * One pass of HelpOps's loop: perform operation `i`.  The state keeps
     * evolving from the loop's starting point (`st0`, `v0`); unhindered,
     * the operations done so far then include this one.
     */
    method RunStep(desc: DescId, opid: nat, i: nat, next: nat, ghost quiet: bool, ghost s0: set<nat>,
                   ghost st0: map<DescId, Status>, ghost v0: map<nat, NodeDesc>) returns (ret: ReturnCode)
      requires Valid() && desc in status && opid <= i < |descOps[desc]| && next == i + 1
      requires Evolves(st0, status, v0, View(nodes))
      requires quiet ==> status == st0 && status[desc] == Active && QuietFor(status, desc) &&
                         Progress(View(nodes), status, descOps, desc, opid, i, s0, Ok)
      modifies this
      decreases Measure(), 6
      ensures Valid() && desc in status && Evolves(st0, status, v0, View(nodes))
      ensures descOps == old(descOps) && helpStack == old(helpStack) && nextDesc == old(nextDesc)
      ensures Measure() <= old(Measure())
      ensures quiet ==> status == st0 && ret != Skip && Progress(View(nodes), status, descOps, desc, opid, next, s0, ret)
    {
      ghost var v, st := View(nodes), status;
      ret := RunOp(desc, i);
      EvolvesTransitive(st0, st, status, v0, v, View(nodes));
      FinishingShrinksMeasure(Actives(st), Actives(status), StackSet());
      if quiet {
        QuietStep(v, View(nodes), status, descOps, desc, opid, i, next, s0, ret);
      }
    }

    /** The body of HelpOps's loop: perform operation `opid` of the transaction. */
    method RunOp(desc: DescId, opid: nat) returns (ret: ReturnCode)
      requires Valid() && desc in status && opid < |descOps[desc]|
      modifies this
      decreases Measure(), 5
      ensures Valid() && Grows()
      ensures QuietFor(old(status), desc) ==>
        status == old(status) &&
        ClaimOutcome(View(old(nodes)), View(nodes), descOps[desc][opid].key in old(Contents()), old(status[desc]) == Active,
                     descOps[desc][opid].key, NodeDesc(desc, opid), !descOps[desc][opid].kind.Insert?, ret)
    {
      var op := descOps[desc][opid];
      if op.kind.Insert? {
        ret := Insert(op.key, desc, opid);
      } else {
        ret := ClaimPresent(op.key, desc, opid);
      }
    }

    /**
     * The end of HelpOps: pop the help stack, then commit the transaction
     * if no operation failed and abort it otherwise, if it is still
     * active.
     */
    method HelpOpsFinish(desc: DescId, opid: nat, i: nat, ret: ReturnCode, ghost quiet: bool, ghost s0: set<nat>)
      requires Valid() && desc in status && opid <= i <= |descOps[desc]| && |helpStack| > 0
      requires ret != Fail && status[desc] == Active ==> i == |descOps[desc]|
      requires quiet ==> status[desc] == Active && Progress(View(nodes), status, descOps, desc, opid, i, s0, ret)
      modifies this
      ensures Valid() && desc in status && status[desc] != Active
      ensures nodes == old(nodes) && descOps == old(descOps) && nextDesc == old(nextDesc)
      ensures helpStack == old(helpStack[..|helpStack| - 1])
      ensures status == old(status)[desc := status[desc]] && Evolves(old(status), status, View(nodes), View(nodes))
      ensures Actives(status) == old(Actives(status)) - {desc}
      ensures old(status[desc]) == Active ==> (status[desc] == Committed <==> ret != Fail)
      ensures quiet ==> TxnOutcome(s0, descOps[desc][opid..], status[desc] == Committed, Contents())
    {
      helpStack := helpStack[..|helpStack| - 1];
      var ops := descOps[desc];
      if status[desc] != Active {
        return;
      }
      if ret != Fail {
        status := status[desc := Committed];
        assert ops[opid..i] == ops[opid..];
      } else {
        KeySetSameCommits(View(nodes), old(status), status[desc := Aborted], descOps);
        status := status[desc := Aborted];
        if quiet {
          assert ops[opid..][..i - opid] == ops[opid..i];
          FailingPrefix(s0, ops[opid..], i - opid);
        }
      }
    }

    /**
     * FinishPendingTxn: help the transaction that claimed a node past the
     * operation that claimed it, unless it is the caller's own.  Helping a
     * finished transaction changes nothing; otherwise something finishes.
     */
    method FinishPendingTxn(nd: NodeDesc, desc: DescId)
      requires Valid() && DescOk(nd, status, descOps) && desc in status
      modifies this
      decreases Measure(), 2
      ensures Valid() && Grows()
      ensures unchanged(this) || Actives(status) < old(Actives(status))
      ensures nd.desc == desc || old(status[nd.desc]) != Active ==> unchanged(this)
    {
      if nd.desc == desc {
        return;
      }
      HelpOps(nd.desc, nd.opid + 1);
    }

    /**
     * The part Insert, Delete and Find share, for a key that has a node:
     * help the transaction that claimed it, then try to claim it.  The
     * attempt finds the node changed only when helping finished some
     * transaction, and the caller then retries.
     */
    method ClaimExisting(key: nat, i: nat, desc: DescId, opid: nat, wantPresent: bool) returns (ret: ReturnCode, retry: bool)
      requires Valid() && desc in status && opid < |descOps[desc]|
      requires i < |nodes| && nodes[i].key == key
      modifies this
      decreases Measure(), 3
      ensures Valid() && Grows()
      ensures retry ==> Actives(status) < old(Actives(status))
      ensures !retry && ret == Ok ==> key in View(nodes) && View(nodes)[key] == NodeDesc(desc, opid)
      ensures QuietFor(old(status), desc) ==>
        !retry && status == old(status) &&
        ClaimOutcome(View(old(nodes)), View(nodes), key in old(Contents()), old(status[desc]) == Active,
                     key, NodeDesc(desc, opid), wantPresent, ret)
    {
      ViewHas(nodes, i);
      var oldDesc := nodes[i].nodeDesc;
      FinishingShrinksMeasure(Actives(status), Actives(status), StackSet());
      ghost var st, v := status, View(nodes);
      FinishPendingTxn(oldDesc, desc);
      ghost var st1, v1 := status, View(nodes);
      ret, retry := TryClaim(key, oldDesc, desc, opid, wantPresent);
      assert Evolves(st1, status, v1, View(nodes));
      EvolvesTransitive(st, st1, status, v, v1, View(nodes));
    }

    /**
     * One attempt to claim the node of `key`, last seen carrying
     * `oldDesc`: an operation already recorded there is skipped; it fails
     * unless the key's presence is the wanted one and the transaction is
     * still active; otherwise the compare-and-swap of the node's
     * descriptor succeeds exactly when the node still carries `oldDesc`.
     */
    method TryClaim(key: nat, oldDesc: NodeDesc, desc: DescId, opid: nat, wantPresent: bool) returns (ret: ReturnCode, retry: bool)
      requires Valid() && desc in status && opid < |descOps[desc]|
      requires key in View(nodes) && DescOk(oldDesc, status, descOps)
      modifies this
      ensures Valid() && OnlyNodes()
      ensures var nd := NodeDesc(desc, opid);
        if oldDesc == nd then ret == Skip && !retry
        else if IsKeyExist(oldDesc, status, descOps) != wantPresent || status[desc] != Active then ret == Fail && !retry
        else if View(old(nodes))[key] != oldDesc then retry
        else ret == Ok && !retry
      ensures View(nodes) == if ret == Ok && !retry then View(old(nodes))[key := NodeDesc(desc, opid)] else View(old(nodes))
    {
      var nd := NodeDesc(desc, opid);
      retry := false;
      if IsSameOperation(oldDesc, nd) {
        return Skip, false;
      }
      if IsKeyExist(oldDesc, status, descOps) != wantPresent || status[desc] != Active {
        return Fail, false;
      }
      var j := LocatePred(key);
      ViewHas(nodes, j);
      if nodes[j].nodeDesc != oldDesc {
        return Fail, true;
      }
      ViewUpdate(nodes, j, nd);
      KeySetUpdate(View(nodes), key, nd, status, descOps);
      nodes := nodes[j := Node(key, nd)];
      return Ok, false;
    }

    /** The successful compare-and-swap of Insert: splice a new node in between its predecessor and successor. */
    method Splice(i: nat, n: Node)
      requires Valid() && DescOk(n.nodeDesc, status, descOps) && i <= |nodes|
      requires forall j :: 0 <= j < i ==> nodes[j].key < n.key
      requires i < |nodes| ==> n.key < nodes[i].key
      modifies this
      ensures Valid() && OnlyNodes()
      ensures nodes == old(nodes[..i] + [n] + nodes[i..])
      ensures View(nodes) == View(old(nodes))[n.key := n.nodeDesc]
    {
      ViewInsert(nodes, i, n);
      KeySetUpdate(View(nodes), n.key, n.nodeDesc, status, descOps);
      nodes := nodes[..i] + [n] + nodes[i..];
    }

    /**
     * Insert: a key without a node gets a new node carrying this
     * operation (if the transaction is still active); a key with a node is
     * claimed when it reads as absent.
     */
    method Insert(key: nat, desc: DescId, opid: nat) returns (ret: ReturnCode)
      requires Valid() && desc in status && opid < |descOps[desc]| && ValidKey(key)
      modifies this
      decreases Measure(), 4
      ensures Valid() && Grows()
      ensures ret == Ok ==> key in View(nodes) && View(nodes)[key] == NodeDesc(desc, opid)
      ensures QuietFor(old(status), desc) ==>
        status == old(status) &&
        ClaimOutcome(View(old(nodes)), View(nodes), key in old(Contents()), old(status[desc]) == Active,
                     key, NodeDesc(desc, opid), false, ret)
    {
      while true
        invariant Valid() && Grows() && desc in status
        invariant QuietFor(old(status), desc) ==> unchanged(this)
        decreases |Actives(status)|
      {
        var i := LocatePred(key);
        if !(i < |nodes| && nodes[i].key == key) {
          if status[desc] != Active {
            return Fail;
          }
          Splice(i, Node(key, NodeDesc(desc, opid)));
          return Ok;
        }
        ghost var a := Actives(status);
        EvolvesActives(old(status), status, View(old(nodes)), View(nodes));
        FinishingShrinksMeasure(old(Actives(status)), a, StackSet());
        var retry;
        ghost var st, v := status, View(nodes);
        ret, retry := ClaimExisting(key, i, desc, opid, false);
        EvolvesTransitive(old(status), st, status, View(old(nodes)), v, View(nodes));
        if !retry {
          return;
        }
        SubsetCard(Actives(status), a);
      }
    }

    /**
     * Delete and Find: a key without a node fails; a key with a node is
     * claimed when it reads as present.  With no marked nodes ever
     * (physical removal is switched off) the two functions are the same.
     */
    method ClaimPresent(key: nat, desc: DescId, opid: nat) returns (ret: ReturnCode)
      requires Valid() && desc in status && opid < |descOps[desc]| && ValidKey(key)
      modifies this
      decreases Measure(), 4
      ensures Valid() && Grows()
      ensures ret == Ok ==> key in View(nodes) && View(nodes)[key] == NodeDesc(desc, opid)
      ensures QuietFor(old(status), desc) ==>
        status == old(status) &&
        ClaimOutcome(View(old(nodes)), View(nodes), key in old(Contents()), old(status[desc]) == Active,
                     key, NodeDesc(desc, opid), true, ret)
    {
      while true
        invariant Valid() && Grows() && desc in status
        invariant QuietFor(old(status), desc) ==> unchanged(this)
        decreases |Actives(status)|
      {
        var i := LocatePred(key);
        if !(i < |nodes| && nodes[i].key == key) {
          return Fail;
        }
        ghost var a := Actives(status);
        EvolvesActives(old(status), status, View(old(nodes)), View(nodes));
        FinishingShrinksMeasure(old(Actives(status)), a, StackSet());
        var retry;
        ghost var st, v := status, View(nodes);
        ret, retry := ClaimExisting(key, i, desc, opid, true);
        EvolvesTransitive(old(status), st, status, View(old(nodes)), v, View(nodes));
        if !retry {
          return;
        }
        SubsetCard(Actives(status), a);
      }
    }
  }
}
