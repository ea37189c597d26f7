/**
 * DList (rstm-dev/bench/DList.hpp): the benchmark's sorted doubly linked
 * list of ints between a head node holding -1 and a tail node holding
 * INT_MAX.  Nodes live in an arena: node `n` has value `val[n]` and links
 * `next[n]` and `prev[n]`, NULL being -1; the head is node 0, the tail
 * node 1, and an allocated node takes the next free index.  The ghost
 * `chain` lists the nodes from head to tail in list order.
 */
module BenchDList {
  import opened BenchList

  const NULL: int := -1
  const HEAD: nat := 0
  const TAIL: nat := 1
  /** INT_MAX: the tail's value. */
  const INT_MAX: int := 0x7fff_ffff

  /** The values held by the nodes `ids`, in order. */
  function ValuesAt(val: seq<int>, ids: seq<nat>): (r: seq<int>)
    requires forall i :: 0 <= i < |ids| ==> ids[i] < |val|
    ensures |r| == |ids| && forall i :: 0 <= i < |ids| ==> r[i] == val[ids[i]]
  {
    seq(|ids|, i requires 0 <= i < |ids| => val[ids[i]])
  }

  /** `chain` runs from head to tail through nodes below `n`, never repeating one. */
  ghost predicate Chain(n: nat, chain: seq<nat>)
  {
    2 <= |chain| && chain[0] == HEAD && chain[|chain| - 1] == TAIL &&
    (forall i :: 0 <= i < |chain| ==> chain[i] < n) &&
    (forall i, j :: 0 <= i < j < |chain| ==> chain[i] != chain[j])
  }

  /** Each node of `chain` but the last has the next node as its next. */
  ghost predicate NextLinks(next: seq<int>, chain: seq<nat>)
  {
    forall i :: 0 <= i < |chain| - 1 ==> chain[i] < |next| && next[chain[i]] == chain[i + 1]
  }

  /** Each node of `chain` but the first has the node before it as its prev. */
  ghost predicate PrevLinks(prev: seq<int>, chain: seq<nat>)
  {
    forall i :: 0 < i < |chain| ==> chain[i] < |prev| && prev[chain[i]] == chain[i - 1]
  }

  /**
   * The arena holds a well-linked list along `chain`: it runs from head to
   * tail without repeating a node, each node's next is the node after it
   * and its prev the node before it, the tail's next and the head's prev
   * are NULL, and the sentinels hold -1 and INT_MAX.
   */
  ghost predicate Linked(val: seq<int>, next: seq<int>, prev: seq<int>, chain: seq<nat>)
  {
    2 <= |val| && |next| == |val| && |prev| == |val| &&
    Chain(|val|, chain) && NextLinks(next, chain) && PrevLinks(prev, chain) &&
    next[TAIL] == NULL && prev[HEAD] == NULL &&
    val[HEAD] == SENTINEL_VAL && val[TAIL] == INT_MAX
  }

  /** The values of the nodes after the head, the tail's INT_MAX last. */
  ghost function KeysOf(val: seq<int>, next: seq<int>, prev: seq<int>, chain: seq<nat>): (ks: seq<int>)
    requires Linked(val, next, prev, chain)
    ensures |ks| == |chain| - 1 && ks[|ks| - 1] == INT_MAX
  {
    ValuesAt(val, chain[1..])
  }

  /** Putting `n` at position k of a sequence shifts the elements from k one place up. */
  lemma PutAt(chain: seq<nat>, k: nat, n: nat, chain': seq<nat>)
    requires k <= |chain| && chain' == chain[..k] + [n] + chain[k..]
    ensures |chain'| == |chain| + 1
    ensures (forall i :: 0 <= i < k ==> chain'[i] == chain[i]) && chain'[k] == n
    ensures forall i :: k < i < |chain'| ==> chain'[i] == chain[i - 1]
  {
    forall i | 0 <= i < |chain'|
      ensures i < k ==> chain'[i] == chain[i]
      ensures i == k ==> chain'[i] == n
      ensures k < i ==> chain'[i] == chain[i - 1]
    {
      if i < k {
        assert chain'[i] == chain[..k][i];
      } else if i > k {
        assert chain'[i] == chain[k..][i - k - 1];
      }
    }
  }

  /** A fresh node `n` put at position k, strictly inside, keeps a chain of nodes below n a chain of nodes below n + 1. */
  lemma ChainPut(n: nat, chain: seq<nat>, k: nat, chain': seq<nat>)
    requires Chain(n, chain) && 1 <= k < |chain| && |chain'| == |chain| + 1
    requires (forall i :: 0 <= i < k ==> chain'[i] == chain[i]) && chain'[k] == n
    requires forall i :: k < i < |chain'| ==> chain'[i] == chain[i - 1]
    ensures Chain(n + 1, chain')
  {
    assert chain'[0] == chain[0] && chain'[|chain'| - 1] == chain[|chain| - 1];
    forall i | 0 <= i < |chain'|
      ensures chain'[i] < n + 1
    {
      if i != k {
        assert chain'[i] == chain[if i < k then i else i - 1];
      }
    }
    forall i, j | 0 <= i < j < |chain'|
      ensures chain'[i] != chain'[j]
    {
      if i != k && j != k {
        var i0 := if i < k then i else i - 1;
        var j0 := if j < k then j else j - 1;
        assert chain'[i] == chain[i0] && chain'[j] == chain[j0];
      }
    }
  }

  /** A new node `n` put at position k of the chain keeps it a chain. */
  lemma ChainIn(n: nat, chain: seq<nat>, k: nat, chain': seq<nat>)
    requires Chain(n, chain) && 1 <= k < |chain|
    requires chain' == chain[..k] + [n] + chain[k..]
    ensures Chain(n + 1, chain') && |chain'| == |chain| + 1
    ensures forall i :: 0 <= i < k ==> chain'[i] == chain[i]
    ensures chain'[k] == n
    ensures forall i :: k < i < |chain'| ==> chain'[i] == chain[i - 1]
  {
    PutAt(chain, k, n, chain');
    ChainPut(n, chain, k, chain');
  }

  /** Pointing the node at position k - 1 at a new node `n`, which points at the node at k, links the chain with `n` put in. */
  lemma NextIn(n: nat, next: seq<int>, chain: seq<nat>, k: nat, next': seq<int>, chain': seq<nat>)
    requires Chain(n, chain) && NextLinks(next, chain) && |next| == n && 1 <= k < |chain|
    requires next' == next[chain[k - 1] := n] + [chain[k]]
    requires chain' == chain[..k] + [n] + chain[k..]
    ensures NextLinks(next', chain')
  {
    ChainIn(n, chain, k, chain');
    forall i | 0 <= i < |chain'| - 1
      ensures chain'[i] < |next'| && next'[chain'[i]] == chain'[i + 1]
    {
      if i < k - 1 {
        assert chain[i] != chain[k - 1];
      } else if i > k {
        assert chain[i - 1] != chain[k - 1];
      }
    }
  }

  /** Pointing the node at position k back at a new node `n`, which points back at the node at k - 1, links the chain with `n` put in. */
  lemma PrevIn(n: nat, prev: seq<int>, chain: seq<nat>, k: nat, prev': seq<int>, chain': seq<nat>)
    requires Chain(n, chain) && PrevLinks(prev, chain) && |prev| == n && 1 <= k < |chain|
    requires prev' == prev[chain[k] := n] + [chain[k - 1]]
    requires chain' == chain[..k] + [n] + chain[k..]
    ensures PrevLinks(prev', chain')
  {
    ChainIn(n, chain, k, chain');
    forall i | 0 < i < |chain'|
      ensures chain'[i] < |prev'| && prev'[chain'[i]] == chain'[i - 1]
    {
      if i < k {
        assert chain[i] != chain[k];
      } else if i > k + 1 {
        assert chain[i - 1] != chain[k];
      }
    }
  }

  /**
   * insert's link step: a new node `|val|` holding `v`, linked in between
   * the nodes at chain positions k - 1 and k, keeps the list well linked
   * and puts `v` at position k - 1 of the values.
   */
  lemma LinkIn(val: seq<int>, next: seq<int>, prev: seq<int>, chain: seq<nat>, k: nat, v: int,
               val': seq<int>, next': seq<int>, prev': seq<int>, chain': seq<nat>)
    requires Linked(val, next, prev, chain) && 1 <= k < |chain|
    requires val' == val + [v]
    requires next' == next[chain[k - 1] := |val|] + [chain[k]]
    requires prev' == prev[chain[k] := |val|] + [chain[k - 1]]
    requires chain' == chain[..k] + [|val|] + chain[k..]
    ensures Linked(val', next', prev', chain')
    ensures KeysOf(val', next', prev', chain') ==
            KeysOf(val, next, prev, chain)[..k - 1] + [v] + KeysOf(val, next, prev, chain)[k - 1..]
  {
    ChainIn(|val|, chain, k, chain');
    NextIn(|val|, next, chain, k, next', chain');
    PrevIn(|val|, prev, chain, k, prev', chain');
    assert chain[k - 1] != TAIL && chain[k] != HEAD;
    KeysIn(val, chain, k, v, val', chain');
  }

  /** The values along the chain after insert's link step. */
  lemma KeysIn(val: seq<int>, chain: seq<nat>, k: nat, v: int, val': seq<int>, chain': seq<nat>)
    requires forall i :: 0 <= i < |chain| ==> chain[i] < |val|
    requires 1 <= k < |chain| && val' == val + [v] && chain' == chain[..k] + [|val|] + chain[k..]
    ensures forall i :: 0 <= i < |chain'| ==> chain'[i] < |val'|
    ensures ValuesAt(val', chain'[1..]) == ValuesAt(val, chain[1..])[..k - 1] + [v] + ValuesAt(val, chain[1..])[k - 1..]
  {
    var ks := ValuesAt(val, chain[1..]);
    var ks' := ValuesAt(val', chain'[1..]);
    assert forall i :: 0 <= i < |ks'| ==> ks'[i] == if i < k - 1 then ks[i] else if i == k - 1 then v else ks[i - 1];
  }

  /** The chain with the node at position k dropped is still a chain. */
  lemma ChainOut(n: nat, chain: seq<nat>, k: nat, chain': seq<nat>)
    requires Chain(n, chain) && 1 <= k < |chain| - 1
    requires chain' == chain[..k] + chain[k + 1..]
    ensures Chain(n, chain') && |chain'| == |chain| - 1
    ensures forall i :: 0 <= i < k ==> chain'[i] == chain[i]
    ensures forall i :: k <= i < |chain'| ==> chain'[i] == chain[i + 1]
  {
    assert forall i :: 0 <= i < |chain'| ==> chain'[i] == if i < k then chain[i] else chain[i + 1];
  }

  /** Pointing the node at position k - 1 at the one at k + 1 links the chain with position k dropped. */
  lemma NextOut(n: nat, next: seq<int>, chain: seq<nat>, k: nat, next': seq<int>, chain': seq<nat>)
    requires Chain(n, chain) && NextLinks(next, chain) && |next| == n && 1 <= k < |chain| - 1
    requires next' == next[chain[k - 1] := chain[k + 1]]
    requires chain' == chain[..k] + chain[k + 1..]
    ensures NextLinks(next', chain')
  {
    ChainOut(n, chain, k, chain');
    forall i | 0 <= i < |chain'| - 1
      ensures chain'[i] < |next'| && next'[chain'[i]] == chain'[i + 1]
    {
      if i < k - 1 {
        assert chain[i] != chain[k - 1];
      } else if i >= k {
        assert chain[i + 1] != chain[k - 1];
      }
    }
  }

  /** Pointing the node at position k + 1 back at the one at k - 1 links the chain with position k dropped. */
  lemma PrevOut(n: nat, prev: seq<int>, chain: seq<nat>, k: nat, prev': seq<int>, chain': seq<nat>)
    requires Chain(n, chain) && PrevLinks(prev, chain) && |prev| == n && 1 <= k < |chain| - 1
    requires prev' == prev[chain[k + 1] := chain[k - 1]]
    requires chain' == chain[..k] + chain[k + 1..]
    ensures PrevLinks(prev', chain')
  {
    ChainOut(n, chain, k, chain');
    forall i | 0 < i < |chain'|
      ensures chain'[i] < |prev'| && prev'[chain'[i]] == chain'[i - 1]
    {
      if i < k {
        assert chain[i] != chain[k + 1];
      } else if i > k {
        assert chain[i + 1] != chain[k + 1];
      }
    }
  }

  /**
   * remove's unlink step: linking the nodes on either side of chain
   * position k to each other keeps the list well linked and drops the
   * value at position k - 1.
   */
  lemma Unlink(val: seq<int>, next: seq<int>, prev: seq<int>, chain: seq<nat>, k: nat,
               next': seq<int>, prev': seq<int>, chain': seq<nat>)
    requires Linked(val, next, prev, chain) && 1 <= k < |chain| - 1
    requires next' == next[chain[k - 1] := chain[k + 1]]
    requires prev' == prev[chain[k + 1] := chain[k - 1]]
    requires chain' == chain[..k] + chain[k + 1..]
    ensures Linked(val, next', prev', chain')
    ensures KeysOf(val, next', prev', chain') ==
            KeysOf(val, next, prev, chain)[..k - 1] + KeysOf(val, next, prev, chain)[k..]
  {
    ChainOut(|val|, chain, k, chain');
    NextOut(|val|, next, chain, k, next', chain');
    PrevOut(|val|, prev, chain, k, prev', chain');
    assert chain[k - 1] != TAIL && chain[k + 1] != HEAD;
    KeysOut(val, chain, k, chain');
  }

  /** The values along the chain after remove's unlink step. */
  lemma KeysOut(val: seq<int>, chain: seq<nat>, k: nat, chain': seq<nat>)
    requires forall i :: 0 <= i < |chain| ==> chain[i] < |val|
    requires 1 <= k < |chain| - 1 && chain' == chain[..k] + chain[k + 1..]
    ensures forall i :: 0 <= i < |chain'| ==> chain'[i] < |val|
    ensures ValuesAt(val, chain'[1..]) == ValuesAt(val, chain[1..])[..k - 1] + ValuesAt(val, chain[1..])[k..]
  {
    var ks := ValuesAt(val, chain[1..]);
    var ks' := ValuesAt(val, chain'[1..]);
    assert forall i :: 0 <= i < |ks'| ==> ks'[i] == if i < k - 1 then ks[i] else ks[i + 1];
  }

  class DList {
    var val: seq<int>
    var next: seq<int>
    var prev: seq<int>
    /** The nodes from head to tail, in list order. */
    ghost var chain: seq<nat>

    ghost predicate Valid()
      reads this
    {
      Linked(val, next, prev, chain)
    }

    /** The values of the list's nodes after the head, the tail's INT_MAX last. */
    ghost function Keys(): (ks: seq<int>)
      requires Valid()
      reads this
      ensures |ks| >= 1 && ks[|ks| - 1] == INT_MAX
    {
      KeysOf(val, next, prev, chain)
    }

    /** DList(): head and tail, pointing at each other. */
    constructor()
      ensures Valid() && Keys() == [INT_MAX] && Sane(Keys())
    {
      val := [SENTINEL_VAL, INT_MAX];
      next := [TAIL, NULL];
      prev := [NULL, HEAD];
      chain := [HEAD, TAIL];
    }

    /**
     * isSane: a forward walk from the head checks that values strictly
     * increase and that each node's prev links back to it; a backward
     * walk from the tail checks that values do not increase and that each
     * node's next links back to it.  In a well-linked list the link checks
     * pass, so the answer is whether the values strictly increase from -1
     * to INT_MAX.
     */
    method IsSane() returns (sane: bool)
      requires Valid()
      ensures sane <==> Sane(Keys())
    {
      ghost var ks := Keys();
      sane := true;
      var p: int := HEAD;
      var curr := next[HEAD];
      ghost var k := 1;
      while curr != NULL
        invariant 1 <= k <= |chain| && p == chain[k - 1]
        invariant curr == if k < |chain| then chain[k] else NULL
        invariant Sane(ks[..k - 1])
        decreases |chain| - k
      {
        if val[p] >= val[curr] {
          sane := false;
          break;
        }
        var pp := prev[curr];
        if next[pp] != curr {
          sane := false;
          break;
        }
        assert ks[..k] == ks[..k - 1] + [val[curr]];
        p := curr;
        curr := next[p];
        k := k + 1;
      }
      assert sane ==> ks[..k - 1] == ks;
      p := TAIL;
      curr := prev[TAIL];
      ghost var b := |chain| - 2;
      while curr != NULL
        invariant -1 <= b <= |chain| - 2 && p == chain[b + 1]
        invariant curr == if b >= 0 then chain[b] else NULL
        invariant sane <==> Sane(ks)
        decreases b + 1
      {
        assert sane ==> val[curr] < val[p];
        if val[p] < val[curr] {
          sane := false;
          break;
        }
        var n := next[curr];
        if prev[n] != curr {
          sane := false;
          break;
        }
        p := curr;
        curr := prev[p];
        b := b - 1;
      }
    }

    /**
     * The walk shared by insert, lookup and remove: from the node after
     * the head to the first node whose value is not below `v`.  The tail's
     * INT_MAX stops it at the latest.
     */
    method Traverse(v: int) returns (before: int, curr: int, ghost k: nat)
      requires Valid() && v <= INT_MAX
      ensures 1 <= k < |chain| && before == chain[k - 1] && curr == chain[k]
      ensures k - 1 == FirstAtLeast(Keys(), v)
    {
      before := HEAD;
      curr := next[HEAD];
      k := 1;
      while curr != NULL
        invariant 1 <= k < |chain| && before == chain[k - 1] && curr == chain[k]
        invariant forall j :: 0 <= j < k - 1 ==> Keys()[j] < v
        decreases |chain| - k
      {
        if val[curr] >= v {
          break;
        }
        before := curr;
        curr := next[before];
        k := k + 1;
      }
      FirstAtLeastAt(Keys(), v, k - 1);
    }

    /**
     * insert: a new node holding `v` goes before the first node not below
     * it, unless that node holds `v`; so INT_MAX is never inserted.  The
     * values change as in List's insert, so a sane list stays sane and
     * gains exactly `v` (BenchList.InsertedSane).
     */
    method Insert(v: int)
      requires Valid() && v <= INT_MAX
      modifies this
      ensures Valid()
      ensures Keys() == Inserted(old(Keys()), v)
    {
      ghost var keys := Keys();
      var before, curr, k := Traverse(v);
      if val[curr] > v {
        LinkBetween(before, curr, k, v);
        InsertedAt(keys, v, k - 1);
      } else {
        assert keys[k - 1] == v;
      }
    }

    /** insert's link step: a new node holding `v` between the nodes at chain positions k - 1 and k. */
    method LinkBetween(before: int, curr: int, ghost k: nat, v: int)
      requires Valid() && 1 <= k < |chain| && before == chain[k - 1] && curr == chain[k]
      modifies this
      ensures Valid() && Keys() == old(Keys())[..k - 1] + [v] + old(Keys())[k - 1..]
    {
      var between := |val|;
      ghost var val0, next0, prev0, chain0 := val, next, prev, chain;
      val, next, prev := val + [v], next[before := between] + [curr], prev[curr := between] + [before];
      chain := chain[..k] + [between] + chain[k..];
      LinkIn(val0, next0, prev0, chain0, k, v, val, next, prev, chain);
    }

    /**
     * lookup: whether the walk stops on a node holding `v`.  In a sane
     * list that is whether `v` is a value of the list, the tail's INT_MAX
     * included.
     */
    method Lookup(v: int) returns (found: bool)
      requires Valid() && v <= INT_MAX
      ensures found <==> StopsOn(Keys(), v)
      ensures Sane(Keys()) ==> (found <==> v in Keys())
      ensures Sane(Keys()) && v == INT_MAX ==> found
    {
      var before, curr, k := Traverse(v);
      found := curr != NULL && val[curr] == v;
      if Sane(Keys()) {
        SaneSorted(Keys());
        StopsOnMember(Keys(), v);
      }
    }

    /**
     * remove: the node the walk stops on is unlinked if it holds `v`.  The
     * values change as in List's remove, so a sane list stays sane and
     * loses exactly `v` (BenchList.RemovedSane).  For `v` == INT_MAX the
     * walk stops on the tail, whose next is NULL, and the source writes
     * through it; the model excludes that call.
     */
    method Remove(v: int)
      requires Valid() && v < INT_MAX
      modifies this
      ensures Valid() && val == old(val)
      ensures Keys() == Removed(old(Keys()), v)
    {
      var before, curr, k := Traverse(v);
      if val[curr] == v {
        assert k < |chain| - 1 by {
          assert Keys()[|chain| - 2] == INT_MAX;
        }
        UnlinkAt(before, curr, k);
      }
    }

    /** remove's unlink step: the nodes on either side of chain position k linked to each other. */
    method UnlinkAt(before: int, curr: int, ghost k: nat)
      requires Valid() && 1 <= k < |chain| - 1 && before == chain[k - 1] && curr == chain[k]
      modifies this
      ensures Valid() && val == old(val) && Keys() == old(Keys())[..k - 1] + old(Keys())[k..]
    {
      var after := next[curr];
      assert after == chain[k + 1];
      ghost var next0, prev0, chain0 := next, prev, chain;
      next, prev := next[before := after], prev[after := before];
      chain := chain[..k] + chain[k + 1..];
      Unlink(val, next0, prev0, chain0, k, next, prev, chain);
    }
  }
}
