/**
 * LockfreeList (boosting/list/lockfreelist.cc): Harris's sorted linked
 * list of uint32_t keys between a head sentinel (key 0) and a tail
 * sentinel (key 0xffffffff), used by the boosted list as its base set.
 *
 * The model runs one thread at a time.  Then no compare-and-swap fails,
 * no node stays marked after Delete returns, and the retry loops run
 * once; the list is the sequence of the keys of the nodes between the
 * sentinels, and a node is known by its position: 0 is the head,
 * 1 .. |keys| the nodes in order, |keys| + 1 the tail.
 */
module Lockfree {
  import opened Unsigned

  /** m_head->key */
  const HEAD_KEY: nat := 0
  /** m_tail->key */
  const TAIL_KEY: nat := 0xffff_ffff

  predicate Increasing(keys: seq<nat>)
  {
    forall i, j :: 0 <= i < j < |keys| ==> keys[i] < keys[j]
  }

  /** The key held by the node at position `p`, sentinels included. */
  function NodeKey(keys: seq<nat>, p: nat): (k: nat)
    requires p <= |keys| + 1
    ensures p == 0 ==> k == HEAD_KEY
    ensures p == |keys| + 1 ==> k == TAIL_KEY
  {
    if p == 0 then HEAD_KEY else if p <= |keys| then keys[p - 1] else TAIL_KEY
  }

  /**
   * Where LocatePred stops: the position of the first node after the head
   * whose key is not below `key`, the tail if there is none.
   */
  function Locate(keys: seq<nat>, key: nat): (p: nat)
    ensures 1 <= p <= |keys| + 1
    ensures forall j :: 0 <= j < p - 1 ==> keys[j] < key
    ensures p <= |keys| ==> keys[p - 1] >= key
    decreases |keys|
  {
    if |keys| == 0 || keys[0] >= key then 1 else 1 + Locate(keys[1..], key)
  }

  /** In an increasing list, the key is present exactly when Locate stops on a node holding it. */
  lemma LocateFinds(keys: seq<nat>, key: nat)
    requires Increasing(keys)
    ensures key in keys <==> Locate(keys, key) <= |keys| && keys[Locate(keys, key) - 1] == key
  {
    var p := Locate(keys, key);
    if key in keys {
      var j :| 0 <= j < |keys| && keys[j] == key;
      assert p - 1 <= j;
    }
  }

  /**
   * Find as written: whether the node LocatePred returns holds the key,
   * the tail sentinel included.
   */
  function FindAsWritten(keys: seq<nat>, key: nat): (r: bool)
  {
    NodeKey(keys, Locate(keys, key)) == key
  }

  /** Insert as written reports "already exists" exactly when FindAsWritten holds. */
  function InsertAsWritten(keys: seq<nat>, key: nat): (r: bool)
    ensures r <==> !FindAsWritten(keys, key)
  {
    NodeKey(keys, Locate(keys, key)) != key
  }

  /** Delete as written reports success exactly when FindAsWritten holds. */
  function DeleteAsWritten(keys: seq<nat>, key: nat): (r: bool)
    ensures r <==> FindAsWritten(keys, key)
  {
    NodeKey(keys, Locate(keys, key)) == key
  }

  /**
   * The tail sentinel's key is a valid caller key: in any list that does
   * not hold it, Find as written reports it present, Insert refuses it as
   * already present and Delete reports removing it (and unlinks the tail).
   */
  lemma TailKeyAsWritten(keys: seq<nat>)
    requires Increasing(keys) && TAIL_KEY !in keys
    requires forall i :: 0 <= i < |keys| ==> keys[i] < U32
    ensures FindAsWritten(keys, TAIL_KEY) && !InsertAsWritten(keys, TAIL_KEY) && DeleteAsWritten(keys, TAIL_KEY)
  {
    var p := Locate(keys, TAIL_KEY);
    assert forall i :: 0 <= i < |keys| ==> keys[i] != TAIL_KEY;
  }

  /** Splicing a key in at its sorted place keeps the list increasing and adds just that key. */
  lemma SpliceKeeps(keys: seq<nat>, p: nat, key: nat, s: seq<nat>)
    requires Increasing(keys) && 1 <= p <= |keys| + 1
    requires forall j :: 0 <= j < p - 1 ==> keys[j] < key
    requires p <= |keys| ==> keys[p - 1] > key
    requires s == keys[..p - 1] + [key] + keys[p - 1..]
    ensures Increasing(s)
    ensures forall i :: 0 <= i < |s| ==> s[i] in keys || s[i] == key
    ensures (set k | k in s) == (set k | k in keys) + {key}
  {
    SpliceAt(keys, p, key, s);
    forall k | k in keys
      ensures k in s
    {
      var j :| 0 <= j < |keys| && keys[j] == k;
      if j < p - 1 { assert s[j] == k; } else { assert s[j + 1] == k; }
    }
  }

  /** Where each key of a splice comes from. */
  lemma SpliceAt(keys: seq<nat>, p: nat, key: nat, s: seq<nat>)
    requires 1 <= p <= |keys| + 1
    requires s == keys[..p - 1] + [key] + keys[p - 1..]
    ensures |s| == |keys| + 1
    ensures forall i :: 0 <= i < p - 1 ==> s[i] == keys[i]
    ensures s[p - 1] == key
    ensures forall i :: p <= i < |s| ==> s[i] == keys[i - 1]
  {
  }

  /** Unlinking the node at `p` keeps the list increasing and removes just its key. */
  lemma UnlinkKeeps(keys: seq<nat>, p: nat, s: seq<nat>)
    requires Increasing(keys) && 1 <= p <= |keys|
    requires s == keys[..p - 1] + keys[p..]
    ensures Increasing(s)
    ensures forall i :: 0 <= i < |s| ==> s[i] in keys
    ensures (set k | k in s) == (set k | k in keys) - {keys[p - 1]}
  {
    assert forall i :: 0 <= i < |s| ==> s[i] == (if i < p - 1 then keys[i] else keys[i + 1]);
    forall k | k in keys && k != keys[p - 1]
      ensures k in s
    {
      var j :| 0 <= j < |keys| && keys[j] == k;
      if j < p - 1 { assert s[j] == k; } else { assert s[j - 1] == k; }
    }
  }

  class LockfreeList {
    /** The keys of the nodes between the sentinels, in list order. */
    var keys: seq<nat>

    ghost predicate Valid()
      reads this
    {
      Increasing(keys) && forall i :: 0 <= i < |keys| ==> keys[i] < U32
    }

    /** The set the list represents. */
    ghost function Elements(): set<nat>
      reads this
    {
      set k | k in keys
    }

    /** LockfreeList(): head linked straight to tail. */
    constructor()
      ensures Valid() && keys == [] && Elements() == {}
    {
      keys := [];
    }

    /**
     * LocatePred: walk from the head to the first node whose key is not
     * below `key` (the tail if none is); `left` is the node before it.
     */
    method LocatePred(key: nat) returns (left: nat, right: nat)
      ensures right == Locate(keys, key) && left == right - 1
    {
      left := 0;
      right := 1;
      while right <= |keys| && keys[right - 1] < key
        invariant 1 <= right <= |keys| + 1 && left == right - 1
        invariant Locate(keys, key) == right - 1 + Locate(keys[right - 1..], key)
        decreases |keys| + 1 - right
      {
        assert keys[right - 1..][1..] == keys[right..];
        left := right;
        right := right + 1;
      }
    }

    /** Find: whether a node other than the tail holds the key. */
    method Find(key: nat) returns (r: bool)
      requires Valid()
      ensures r <==> key in Elements()
    {
      var left, right := LocatePred(key);
      r := right <= |keys| && keys[right - 1] == key;
      LocateFinds(keys, key);
    }

    /** Size: the nodes strictly between head and tail, counted by a walk. */
    method Size() returns (size: nat)
      requires Valid()
      ensures size == |keys|
    {
      size := 0;
      var p := 1;
      while p != |keys| + 1
        invariant 1 <= p <= |keys| + 1 && size == p - 1
        decreases |keys| + 1 - p
      {
        size := size + 1;
        p := p + 1;
      }
    }

    /**
     * Insert: false if a node other than the tail holds the key; else a
     * new node is linked in between LocatePred's two nodes and true is
     * returned.
     */
    method Insert(key: nat) returns (r: bool)
      requires Valid() && key < U32
      modifies this
      ensures Valid()
      ensures r <==> key !in old(Elements())
      ensures Elements() == old(Elements()) + {key}
      ensures !r ==> keys == old(keys)
    {
      var left, right := LocatePred(key);
      LocateFinds(keys, key);
      if right <= |keys| && keys[right - 1] == key {
        return false;
      }
      var spliced := keys[..right - 1] + [key] + keys[right - 1..];
      SpliceKeeps(keys, right, key, spliced);
      keys := spliced;
      return true;
    }

    /**
     * Delete: false if no node other than the tail holds the key; else
     * that node is marked and unlinked from its predecessor and true is
     * returned.
     */
    method Delete(key: nat) returns (r: bool)
      requires Valid()
      modifies this
      ensures Valid()
      ensures r <==> key in old(Elements())
      ensures Elements() == old(Elements()) - {key}
      ensures !r ==> keys == old(keys)
    {
      var left, right := LocatePred(key);
      LocateFinds(keys, key);
      if !(right <= |keys| && keys[right - 1] == key) {
        return false;
      }
      var unlinked := keys[..right - 1] + keys[right..];
      UnlinkKeeps(keys, right, unlinked);
      keys := unlinked;
      return true;
    }
  }
}
