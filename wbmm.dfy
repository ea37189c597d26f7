/**
 * WBMMPolicy (libstm/WBMMPolicy.cpp, include/stm/WBMMPolicy.hpp): RSTM's
 * epoch-based reclamation.  A thread buffers freed blocks in a prelimbo
 * node; a full prelimbo is stamped with every thread's transaction
 * counter and pushed onto the limbo list, newest first.  A node whose
 * stamp is strictly older than the new stamp (every thread that was inside
 * a transaction then has since left it) can no longer be reached by a
 * doomed transaction, and neither can anything older; those nodes are
 * detached and their blocks freed.
 *
 * The limbo list is modelled as a sequence of node values, head first;
 * freeing is modelled by returning the freed blocks in the order the
 * source frees them.
 */
module Wbmm {
  /** limbo_t::POOL_SIZE */
  const POOL_SIZE: nat := 32
  /** MAX_THREADS (metadata.hpp) */
  const MAX_THREADS: nat := 256

  type Addr = nat

  /**
   * limbo_t: the buffered blocks, and, once stamped, the counters of the
   * first `length` threads.  `length` counts pool entries before stamping
   * and timestamps after.
   */
  datatype Limbo = Limbo(pool: seq<Addr>, ts: seq<nat>, length: nat)

  const EmptyLimbo: Limbo := Limbo([], [], 0)

  /**
   * is_strictly_older, as a specification: no thread i < old_len was in a
   * transaction (odd counter) in the newer stamp without having advanced
   * since the older one.
   */
  predicate StrictlyOlder(newer: seq<nat>, older: seq<nat>, oldLen: nat)
    requires oldLen <= |newer| && oldLen <= |older|
  {
    forall i :: 0 <= i < oldLen ==> !(newer[i] <= older[i] && newer[i] % 2 == 1)
  }

  /** is_strictly_older: false exactly when some thread is odd and has not advanced. */
  method IsStrictlyOlder(newer: seq<nat>, older: seq<nat>, oldLen: nat) returns (r: bool)
    requires oldLen <= |newer| && oldLen <= |older|
    ensures r == StrictlyOlder(newer, older, oldLen)
    ensures !r <==> exists i :: 0 <= i < oldLen && newer[i] <= older[i] && newer[i] % 2 == 1
  {
    for i := 0 to oldLen
      invariant StrictlyOlder(newer, older, i)
    {
      if newer[i] <= older[i] && newer[i] % 2 == 1 {
        return false;
      }
    }
    return true;
  }

  /**
   * The position in `older` of the first node strictly older than the
   * stamp `ts`, or |older| if there is none.
   */
  function FirstReclaimable(ts: seq<nat>, older: seq<Limbo>): (k: nat)
    requires forall j :: 0 <= j < |older| ==> |older[j].ts| == older[j].length <= |ts|
    ensures k <= |older|
    ensures forall j :: 0 <= j < k ==> !StrictlyOlder(ts, older[j].ts, older[j].length)
    ensures k < |older| ==> StrictlyOlder(ts, older[k].ts, older[k].length)
  {
    if |older| == 0 then 0
    else if StrictlyOlder(ts, older[0].ts, older[0].length) then 0
    else 1 + FirstReclaimable(ts, older[1..])
  }

  /** The blocks of a run of nodes, in list order. */
  function Pools(nodes: seq<Limbo>): (r: seq<Addr>)
    ensures |nodes| == 0 ==> r == []
  {
    if |nodes| == 0 then [] else nodes[0].pool + Pools(nodes[1..])
  }

  lemma {:induction false} PoolsAppend(a: seq<Limbo>, b: seq<Limbo>)
    ensures Pools(a + b) == Pools(a) + Pools(b)
  {
    if |a| == 0 {
      assert a + b == b;
    } else {
      assert (a + b)[1..] == a[1..] + b;
      PoolsAppend(a[1..], b);
    }
  }

  /** Every block buffered in the list is either kept in a node or freed, never both lost nor duplicated. */
  lemma SplitKeepsEveryBlock(nodes: seq<Limbo>, k: nat)
    requires k <= |nodes|
    ensures Pools(nodes) == Pools(nodes[..k]) + Pools(nodes[k..])
  {
    assert nodes == nodes[..k] + nodes[k..];
    PoolsAppend(nodes[..k], nodes[k..]);
  }

  /** One thread's allocator state. */
  class WBMMPolicy {
    var prelimbo: Limbo
    var limbo: seq<Limbo>

    /** Every node on the limbo list has been stamped and holds a full pool. */
    ghost predicate Valid()
      reads this
    {
      prelimbo.length == |prelimbo.pool| < POOL_SIZE && prelimbo.ts == [] &&
      forall j :: 0 <= j < |limbo| ==> |limbo[j].ts| == limbo[j].length && |limbo[j].pool| == POOL_SIZE
    }

    constructor()
      ensures Valid() && prelimbo == EmptyLimbo && limbo == []
    {
      prelimbo := EmptyLimbo;
      limbo := [];
    }

    /**
     * handle_full_prelimbo: stamp the prelimbo with the counters of the
     * first `threadcount` threads and push it; then detach every node from
     * the first one strictly older than that stamp onward, and free their
     * blocks (the result).  The kept nodes are exactly those before it;
     * afterwards prelimbo is a fresh empty node.
     */
    method HandleFullPrelimbo(transNums: seq<nat>, threadcount: nat) returns (freed: seq<Addr>)
      requires |prelimbo.pool| == POOL_SIZE
      requires threadcount <= |transNums| && threadcount <= MAX_THREADS
      requires forall j :: 0 <= j < |limbo| ==> |limbo[j].ts| == limbo[j].length && |limbo[j].pool| == POOL_SIZE
      requires forall j :: 0 <= j < |limbo| ==> limbo[j].length <= threadcount
      modifies this
      ensures Valid()
      ensures prelimbo == EmptyLimbo
      ensures var stamp := transNums[..threadcount];
        var k := FirstReclaimable(stamp, old(limbo));
        limbo == [Limbo(old(prelimbo.pool), stamp, threadcount)] + old(limbo)[..k] &&
        freed == Pools(old(limbo)[k..])
    {
      var head := Limbo(prelimbo.pool, transNums[..threadcount], threadcount);
      var older := limbo;
      var current := FindReclaimable(head.ts, older);
      limbo := [head] + older[..current];
      freed := FreeAll(older[current..]);
      prelimbo := EmptyLimbo;
    }

    /**
     * schedForReclaim: buffer `ptr`; when the prelimbo fills up, stamp and
     * push it, freeing whatever that makes reclaimable.
     */
    method SchedForReclaim(ptr: Addr, transNums: seq<nat>, threadcount: nat) returns (freed: seq<Addr>)
      requires Valid()
      requires threadcount <= |transNums| && threadcount <= MAX_THREADS
      requires forall j :: 0 <= j < |limbo| ==> limbo[j].length <= threadcount
      modifies this
      ensures Valid()
      ensures |old(prelimbo.pool)| + 1 < POOL_SIZE ==>
        prelimbo == Limbo(old(prelimbo.pool) + [ptr], [], old(prelimbo.length) + 1) && limbo == old(limbo) && freed == []
      ensures |old(prelimbo.pool)| + 1 == POOL_SIZE ==>
        var stamp := transNums[..threadcount];
        var k := FirstReclaimable(stamp, old(limbo));
        prelimbo == EmptyLimbo &&
        limbo == [Limbo(old(prelimbo.pool) + [ptr], stamp, threadcount)] + old(limbo)[..k] &&
        freed == Pools(old(limbo)[k..])
    {
      prelimbo := Limbo(prelimbo.pool + [ptr], prelimbo.ts, prelimbo.length + 1);
      if prelimbo.length != POOL_SIZE {
        return [];
      }
      freed := HandleFullPrelimbo(transNums, threadcount);
    }
  }

  /**
   * The search loop of handle_full_prelimbo: walk the older nodes until
   * one is strictly dominated by the new stamp.
   */
  method FindReclaimable(ts: seq<nat>, older: seq<Limbo>) returns (current: nat)
    requires forall j :: 0 <= j < |older| ==> |older[j].ts| == older[j].length <= |ts|
    ensures current == FirstReclaimable(ts, older)
  {
    current := 0;
    while current < |older|
      invariant current <= |older|
      invariant FirstReclaimable(ts, older) == FirstReclaimable(ts, older[current..]) + current
    {
      var dominated := IsStrictlyOlder(ts, older[current].ts, older[current].length);
      if dominated {
        return;
      }
      assert older[current..][1..] == older[current + 1..];
      current := current + 1;
    }
  }

  /** The freeing loop of handle_full_prelimbo: every block of every detached node, in order. */
  method FreeAll(detached: seq<Limbo>) returns (freed: seq<Addr>)
    ensures freed == Pools(detached)
  {
    freed := [];
    var i := 0;
    while i < |detached|
      invariant i <= |detached|
      invariant freed == Pools(detached[..i])
    {
      assert detached[..i + 1] == detached[..i] + [detached[i]];
      PoolsAppend(detached[..i], [detached[i]]);
      assert Pools([detached[i]]) == detached[i].pool;
      freed := freed + detached[i].pool;
      i := i + 1;
    }
    assert detached[..i] == detached;
  }

  /**
   * A thread that is outside a transaction (even counter) in the newer
   * stamp never blocks reclamation, and neither does one that has moved
   * past its older counter.
   */
  lemma QuiescentThreadsDoNotBlock(newer: seq<nat>, older: seq<nat>, oldLen: nat)
    requires oldLen <= |newer| && oldLen <= |older|
    requires forall i :: 0 <= i < oldLen ==> newer[i] % 2 == 0 || newer[i] > older[i]
    ensures StrictlyOlder(newer, older, oldLen)
  {
  }
}
