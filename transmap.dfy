/**
 * The stand-alone pieces of the translink hash map (translink/map/
 * transmap.h): the per-thread help stack, the rules that decide what a
 * node's descriptor says about its key and value, the tag bits stolen
 * from the low end of node pointers, the power-of-two helper and the
 * bucket position of a hash.
 */
module TransMap {
  import opened Unsigned

  /** Descriptors are known by their addresses; any distinct numbers do. */
  type DescRef = nat

  /**
   * HelpStack: the transactions the calling thread is helping, innermost
   * last, in a fixed array of 256 slots with a one-byte index.  Helping a
   * transaction that is already on the stack would never end, so the map
   * checks Contain before it pushes.
   */
  class HelpStack {
    var helps: array<DescRef>
    var index: nat

    ghost predicate Valid()
      reads this
    {
      helps.Length == 256 && index <= 255
    }

    /** The transactions on the stack, outermost first. */
    ghost function Contents(): (s: seq<DescRef>)
      reads this, helps
      requires Valid()
      ensures |s| == index
    {
      helps[..index]
    }

    constructor()
      ensures Valid() && Contents() == [] && fresh(helps)
    {
      helps := new DescRef[256];
      index := 0;
    }

    /** Init: empty the stack. */
    method Init()
      requires helps.Length == 256
      modifies this
      ensures Valid() && Contents() == [] && helps == old(helps)
    {
      index := 0;
    }

    /** Push: the index must stay within one byte, so at most 255 entries. */
    method Push(desc: DescRef)
      requires Valid() && index < 255
      modifies this, helps
      ensures Valid() && helps == old(helps)
      ensures Contents() == old(Contents()) + [desc]
    {
      helps[index] := desc;
      index := index + 1;
    }

    /** Pop: drop the innermost transaction; the stack must not be empty. */
    method Pop()
      requires Valid() && index > 0
      modifies this
      ensures Valid() && helps == old(helps)
      ensures Contents() == old(Contents()[..index - 1])
    {
      index := index - 1;
    }

    /** Contain: whether `desc` is on the stack, by a scan from the bottom. */
    method Contain(desc: DescRef) returns (r: bool)
      requires Valid()
      ensures r <==> desc in Contents()
    {
      var i: nat := 0;
      while i < index
        invariant i <= index
        invariant desc !in helps[..i]
      {
        if helps[i] == desc {
          return true;
        }
        i := i + 1;
      }
      return false;
    }
  }

  /** OpStatus */
  datatype MapStatus = MapActive | MapCommitted | MapAborted

  /** OpType */
  datatype MapOpType = MapFind | MapInsert | MapDelete | MapUpdate

  /** Operator: the operation's type, key and value (uint32_t key and value). */
  datatype MapOperator = MapOperator(kind: MapOpType, key: nat, value: nat)

  /** Desc: the transaction's status and its operations. */
  datatype MapDesc = MapDesc(status: MapStatus, ops: seq<MapOperator>)

  /** The operation a NodeDesc names: `opid` indexes the descriptor's operations. */
  predicate Names(d: MapDesc, opid: nat)
  {
    opid < |d.ops|
  }

  /** IsNodeActive: the owning transaction has committed. */
  predicate IsNodeActive(d: MapDesc)
  {
    d.status == MapCommitted
  }

  /**
   * IsKeyExist: a find or an update keeps the key present whatever the
   * outcome; an insert makes it present only once committed; a delete
   * leaves it present until committed.
   */
  predicate IsKeyExist(d: MapDesc, opid: nat)
    requires Names(d, opid)
  {
    var t := d.ops[opid].kind;
    t == MapFind || (IsNodeActive(d) && t == MapInsert) || (!IsNodeActive(d) && t == MapDelete) || t == MapUpdate
  }

  /** The four cases, one per operation type. */
  lemma IsKeyExistCases(d: MapDesc, opid: nat)
    requires Names(d, opid)
    ensures d.ops[opid].kind in {MapFind, MapUpdate} ==> IsKeyExist(d, opid)
    ensures d.ops[opid].kind == MapInsert ==> (IsKeyExist(d, opid) <==> d.status == MapCommitted)
    ensures d.ops[opid].kind == MapDelete ==> (IsKeyExist(d, opid) <==> d.status != MapCommitted)
  {
  }

  /** An active and an aborted transaction leave the key the same: only a commit matters. */
  lemma IsKeyExistIgnoresAbort(ops: seq<MapOperator>, opid: nat)
    requires opid < |ops|
    ensures IsKeyExist(MapDesc(MapActive, ops), opid) == IsKeyExist(MapDesc(MapAborted, ops), opid)
  {
  }

  /** IsLiveUpdate: the operation carries a value for the key (an update, or a find that read a non-zero value). */
  predicate IsLiveUpdate(d: MapDesc, opid: nat)
    requires Names(d, opid)
  {
    d.ops[opid].kind == MapUpdate || (d.ops[opid].kind == MapFind && d.ops[opid].value != 0)
  }

  /**
   * IsUnsavedUpdate: a committed operation carrying a value other than
   * `val`, the one stored in the node.
   */
  predicate IsUnsavedUpdate(d: MapDesc, opid: nat, val: nat)
    requires Names(d, opid)
  {
    if d.ops[opid].value != val && d.status == MapCommitted then
      d.ops[opid].kind == MapUpdate || (d.ops[opid].kind == MapFind && d.ops[opid].value != 0)
    else
      false
  }

  /**
   * An unsaved update is exactly a live update of a committed transaction
   * whose value differs from the stored one; its key is present.
   */
  lemma UnsavedIsCommittedLiveUpdate(d: MapDesc, opid: nat, val: nat)
    requires Names(d, opid)
    ensures IsUnsavedUpdate(d, opid, val) <==> IsLiveUpdate(d, opid) && d.status == MapCommitted && d.ops[opid].value != val
    ensures IsUnsavedUpdate(d, opid, val) ==> IsKeyExist(d, opid)
  {
  }

  /** GetValue: the value the operation carries. */
  function GetValue(d: MapDesc, opid: nat): (v: nat)
    requires Names(d, opid)
    ensures v == d.ops[opid].value
  {
    d.ops[opid].value
  }

  /** The unsaved value is the one the descriptor carries, and it differs from the stored one. */
  lemma UnsavedValueDiffers(d: MapDesc, opid: nat, val: nat)
    requires Names(d, opid) && IsUnsavedUpdate(d, opid, val)
    ensures GetValue(d, opid) != val && (d.ops[opid].kind == MapUpdate || GetValue(d, opid) != 0)
  {
  }

  /*
   * Tag bits of node pointers: bit 0 marks a pointer to a spine (an
   * inner array), bit 1 marks a data node that is being frozen.  Pointers
   * are 64-bit words; the address proper is what lies above the two tag
   * bits.
   */
  type Ptr = p: int | 0 <= p < 0x1_0000_0000_0000_0000

  /** The pointer without its two tag bits. */
  function Address(p: Ptr): nat
  {
    p / 4
  }

  /** isSpine: bit 0. */
  predicate IsSpine(p: Ptr)
  {
    p % 2 == 1
  }

  /** isMarkedData: bit 1. */
  predicate IsMarkedData(p: Ptr)
  {
    (p / 2) % 2 == 1
  }

  /** mark_spine: set bit 0, leaving the null pointer null. */
  function MarkSpine(p: Ptr): (r: Ptr)
    ensures p == 0 ==> r == 0
    ensures p != 0 ==> IsSpine(r) && IsMarkedData(r) == IsMarkedData(p) && Address(r) == Address(p)
  {
    if p == 0 then 0 else if p % 2 == 1 then p else p + 1
  }

  /** unmark_spine: clear both tag bits, in case a spine was also marked as data. */
  function UnmarkSpine(p: Ptr): (r: Ptr)
    ensures !IsSpine(r) && !IsMarkedData(r) && Address(r) == Address(p)
  {
    p - p % 4
  }

  /** unmark_data: clear bit 1. */
  function UnmarkData(p: Ptr): (r: Ptr)
    ensures !IsMarkedData(r) && IsSpine(r) == IsSpine(p) && Address(r) == Address(p)
  {
    if (p / 2) % 2 == 1 then p - 2 else p
  }

  /** mark_data: set bit 1. */
  function MarkData(p: Ptr): (r: Ptr)
    ensures IsMarkedData(r) && IsSpine(r) == IsSpine(p) && Address(r) == Address(p)
  {
    if (p / 2) % 2 == 1 then p else p + 2
  }

  /** A pointer is its address and its two tag bits. */
  lemma {:induction false} PtrDecomposes(p: Ptr, q: Ptr)
    requires Address(p) == Address(q) && IsSpine(p) == IsSpine(q) && IsMarkedData(p) == IsMarkedData(q)
    ensures p == q
  {
    assert p == 4 * Address(p) + p % 4;
    assert q == 4 * Address(q) + q % 4;
  }

  /**
   * On an aligned pointer (both tag bits clear) marking and unmarking are
   * inverse, and unmark_spine strips a spine mark even when the spine
   * was also marked as data.
   */
  lemma TagRoundTrips(p: Ptr)
    requires !IsSpine(p) && !IsMarkedData(p)
    ensures p != 0 ==> UnmarkSpine(MarkSpine(p)) == p
    ensures UnmarkData(MarkData(p)) == p
    ensures UnmarkSpine(MarkData(MarkSpine(p))) == p
  {
    PtrDecomposes(UnmarkData(MarkData(p)), p);
    PtrDecomposes(UnmarkSpine(MarkData(MarkSpine(p))), p);
    if p != 0 {
      PtrDecomposes(UnmarkSpine(MarkSpine(p)), p);
    }
  }

  /** mark_data_node: atomically set the data mark on slot `pos` of a spine. */
  method MarkDataNode(s: array<Ptr>, pos: nat)
    requires pos < s.Length
    modifies s
    ensures s[pos] == MarkData(old(s[pos]))
    ensures forall j :: 0 <= j < s.Length && j != pos ==> s[j] == old(s[j])
  {
    s[pos] := MarkData(s[pos]);
  }

  /**
   * POW: doubling from one `pow` times.  The result is an int, so it is
   * defined for exponents up to 30.
   */
  method Pow(pow: nat) returns (res: nat)
    requires pow <= 30
    ensures res == Pow2(pow)
    ensures res < 0x8000_0000
  {
    res := 1;
    if pow == 0 {
      return 1;
    }
    var left: nat := pow;
    while left != 0
      invariant left <= pow
      invariant res == Pow2(pow - left)
      decreases left
    {
      res := res * 2;
      left := left - 1;
    }
    Pow2Monotone(pow, 30);
    Pow2Of31();
  }

  lemma Pow2Of31()
    ensures Pow2(31) == 0x8000_0000
  {
    Pow2Of32();
  }

  /**
   * HASH_KEY with the identity hash selected: the key itself, so the hash
   * is one-to-one, as the map requires of it.
   */
  function HashKey(k: nat): (h: nat)
    requires k < U32
    ensures h < U32
  {
    k
  }

  lemma HashKeyInjective(a: nat, b: nat)
    requires a < U32 && b < U32
    ensures HashKey(a) == HashKey(b) ==> a == b
  {
  }

  /** The size of the main array: 2^mainPow buckets. */
  function MainSize(mainPow: nat): (m: nat)
    ensures m == Pow2(mainPow)
  {
    Pow2(mainPow)
  }

  /**
   * getMAINPOS: the hash masked with MAIN_SIZE - 1, which for a power-of-two
   * size is the hash modulo the size, so a valid bucket.
   */
  function MainPos(hash: nat, mainPow: nat): (pos: nat)
    requires hash < U32 && mainPow <= 30
    ensures pos < MainSize(mainPow)
    ensures pos == hash % MainSize(mainPow)
  {
    AndLowMask(hash, mainPow, 32);
    BitAnd(hash, MainSize(mainPow) - 1, 32)
  }
}
