/**
 * The hashed index of the write set (include/stm/WriteSet.hpp and
 * build/libstm/types.cpp): an open-addressing table of `ilength =
 * 2^(32 - shift)` slots probed linearly from a multiplicative hash.  A slot
 * is live when its version is the write set's current version; a live slot
 * names a list entry by position.
 */
module WriteSetIndex {
  import opened Word
  import opened WriteSetEntry
  import opened Unsigned

  /** The multiplier of the CLRS hash. */
  const HASH_MULT: nat := 2654435769

  /** index_t: version, address and list position of one slot. */
  datatype Slot = Slot(version: nat, address: nat, idx: nat)

  lemma DivBelow(x: nat, a: nat, b: nat)
    requires a > 0 && x < a * b
    ensures x / a < b
  {
  }

  /** The low 32 bits of the 64-bit product of the key and the multiplier. */
  function HashProduct(key: nat): (r: nat)
    ensures r < U32
  {
    (key * HASH_MULT) % U64 % U32
  }

  lemma ShiftedBelow(low: nat, shift: nat)
    requires shift <= 32 && low < U32
    ensures 0 <= low / Pow2(shift) < Pow2(32 - shift)
  {
    var p := Pow2(shift);
    var q := Pow2(32 - shift);
    Pow2Add(shift, 32 - shift);
    Pow2Of32();
    DivBelow(low, p, q);
    DivNonnegative(low, p);
  }

  lemma DivNonnegative(x: nat, a: nat)
    requires a > 0
    ensures x / a >= 0
  {
  }

  lemma ModBelow(x: nat, len: nat)
    requires x < len
    ensures x % len == x
  {
  }

  lemma ModSelf(len: nat)
    requires len > 0
    ensures len % len == 0
  {
  }

  /**
   * hash: the 64-bit product of the key and the multiplier, truncated to its
   * low 32 bits and shifted right by `shift`; it always names a slot.
   */
  function Hash(key: nat, shift: nat): (r: nat)
    requires shift <= 32
    ensures r < Pow2(32 - shift)
  {
    ShiftedBelow(HashProduct(key), shift);
    HashProduct(key) / Pow2(shift)
  }

  /** The slot visited at step `j` of the linear probe for `key`: `h = (h + 1) % ilength`. */
  function Probe(key: nat, j: nat, shift: nat): (r: nat)
    requires shift <= 32
    ensures r < Pow2(32 - shift)
  {
    if j == 0 then Hash(key, shift) else (Probe(key, j - 1, shift) + 1) % Pow2(32 - shift)
  }

  lemma {:induction false} ProbeBeforeWrap(key: nat, j: nat, shift: nat)
    requires shift <= 32 && Hash(key, shift) + j < Pow2(32 - shift)
    ensures Probe(key, j, shift) == Hash(key, shift) + j
  {
    if j > 0 {
      ProbeBeforeWrap(key, j - 1, shift);
      ModBelow(Hash(key, shift) + j, Pow2(32 - shift));
    }
  }

  lemma {:induction false} ProbeAfterWrap(key: nat, k: nat, shift: nat)
    requires shift <= 32 && k < Hash(key, shift)
    ensures Probe(key, Pow2(32 - shift) - Hash(key, shift) + k, shift) == k
  {
    var len := Pow2(32 - shift);
    var h := Hash(key, shift);
    if k == 0 {
      ProbeBeforeWrap(key, len - h - 1, shift);
      ModSelf(len);
    } else {
      ProbeAfterWrap(key, k - 1, shift);
      ModBelow(k, len);
    }
  }

  /** Every slot is reached by the probe for any key, within ilength steps. */
  lemma ProbeReaches(key: nat, f: nat, shift: nat) returns (d: nat)
    requires shift <= 32 && f < Pow2(32 - shift)
    ensures d < Pow2(32 - shift) && Probe(key, d, shift) == f
  {
    var len := Pow2(32 - shift);
    var h := Hash(key, shift);
    if h <= f {
      d := f - h;
      ProbeBeforeWrap(key, d, shift);
    } else {
      d := len - h + f;
      ProbeAfterWrap(key, f, shift);
    }
  }

  predicate Live(idx: seq<Slot>, h: nat, version: nat)
    requires h < |idx|
  {
    idx[h].version == version
  }

  /**
   * The index invariant for the entries `es`: addresses are distinct; entry
   * i sits in live slot `slotOf[i]`, reached after `dist[i]` probe steps all
   * over live slots; every live slot is the slot of the entry it names.
   */
  ghost predicate Indexed(idx: seq<Slot>, es: seq<ByteEntry>, version: nat, shift: nat,
                          slotOf: seq<nat>, dist: seq<nat>)
  {
    shift <= 32 && |idx| == Pow2(32 - shift)
    && |slotOf| == |es| && |dist| == |es|
    && (forall i, j :: 0 <= i < j < |es| ==> es[i].addr != es[j].addr)
    && (forall i :: 0 <= i < |es| ==>
          slotOf[i] < |idx| && idx[slotOf[i]] == Slot(version, es[i].addr, i))
    && (forall h :: 0 <= h < |idx| && idx[h].version == version ==>
          idx[h].idx < |es| && slotOf[idx[h].idx] == h)
    && (forall i :: 0 <= i < |es| ==> Probe(es[i].addr, dist[i], shift) == slotOf[i])
    && (forall i, j :: 0 <= i < |es| && 0 <= j < dist[i] ==>
          idx[Probe(es[i].addr, j, shift)].version == version)
  }

  /** Any sequence of more than n values below n repeats a value. */
  lemma {:induction false} Pigeonhole(f: seq<nat>, n: nat) returns (i: nat, j: nat)
    requires forall k :: 0 <= k < |f| ==> f[k] < n
    requires |f| > n
    ensures i < j < |f| && f[i] == f[j]
    decreases n
  {
    var last := |f| - 1;
    var v := f[last];
    if exists k :: 0 <= k < last && f[k] == v {
      i :| 0 <= i < last && f[i] == v;
      j := last;
    } else {
      var g := seq(last, k requires 0 <= k < last => if f[k] == n - 1 then v else f[k]);
      forall k | 0 <= k < last
        ensures g[k] < n - 1
      {
        assert f[k] != v;
      }
      i, j := Pigeonhole(g, n - 1);
      assert g[i] == g[j];
    }
  }

  /** Fewer entries than slots leaves a free slot. */
  lemma FreeSlotExists(idx: seq<Slot>, es: seq<ByteEntry>, version: nat, shift: nat,
                       slotOf: seq<nat>, dist: seq<nat>) returns (free: nat)
    requires Indexed(idx, es, version, shift, slotOf, dist)
    requires |es| < |idx|
    ensures free < |idx| && idx[free].version != version
  {
    if h :| 0 <= h < |idx| && idx[h].version != version {
      free := h;
    } else {
      var f := seq(|idx|, h requires 0 <= h < |idx| => idx[h].idx);
      var h1, h2 := Pigeonhole(f, |es|);
      assert false;
    }
  }

  /** A probe that met only other live addresses before a free slot proves the key absent. */
  lemma ProbeMiss(idx: seq<Slot>, es: seq<ByteEntry>, version: nat, shift: nat,
                  slotOf: seq<nat>, dist: seq<nat>, key: nat, d: nat)
    requires Indexed(idx, es, version, shift, slotOf, dist)
    requires forall j :: 0 <= j < d ==>
      idx[Probe(key, j, shift)].version == version && idx[Probe(key, j, shift)].address != key
    requires idx[Probe(key, d, shift)].version != version
    ensures forall i :: 0 <= i < |es| ==> es[i].addr != key
  {
    forall i | 0 <= i < |es|
      ensures es[i].addr != key
    {
    }
  }

  /** A live slot holding `key` names the entry for `key`. */
  lemma ProbeHit(idx: seq<Slot>, es: seq<ByteEntry>, version: nat, shift: nat,
                 slotOf: seq<nat>, dist: seq<nat>, h: nat)
    requires Indexed(idx, es, version, shift, slotOf, dist)
    requires h < |idx| && idx[h].version == version
    ensures idx[h].idx < |es| && es[idx[h].idx].addr == idx[h].address
  {
    assert idx[slotOf[idx[h].idx]] == Slot(version, es[idx[h].idx].addr, idx[h].idx);
  }

  /** Claiming the free slot a probe stopped at indexes one more entry. */
  lemma AddAt(idx: seq<Slot>, es: seq<ByteEntry>, version: nat, shift: nat,
              slotOf: seq<nat>, dist: seq<nat>, e: ByteEntry, d: nat)
    requires Indexed(idx, es, version, shift, slotOf, dist)
    requires forall i :: 0 <= i < |es| ==> es[i].addr != e.addr
    requires forall j :: 0 <= j < d ==> idx[Probe(e.addr, j, shift)].version == version
    requires idx[Probe(e.addr, d, shift)].version != version
    ensures Indexed(idx[Probe(e.addr, d, shift) := Slot(version, e.addr, |es|)], es + [e], version, shift,
                    slotOf + [Probe(e.addr, d, shift)], dist + [d])
  {
    var h := Probe(e.addr, d, shift);
    var idx' := idx[h := Slot(version, e.addr, |es|)];
    var es' := es + [e];
    var slotOf' := slotOf + [h];
    var dist' := dist + [d];
    forall i | 0 <= i < |es'|
      ensures slotOf'[i] < |idx'| && idx'[slotOf'[i]] == Slot(version, es'[i].addr, i)
    {
      if i < |es| {
        assert slotOf[i] != h;
      }
    }
    forall i, j | 0 <= i < |es'| && 0 <= j < dist'[i]
      ensures idx'[Probe(es'[i].addr, j, shift)].version == version
    {
      if i < |es| {
        assert idx[Probe(es[i].addr, j, shift)].version == version;
      }
    }
  }

  /** Coalescing into an entry keeps its address, so the index is unaffected. */
  lemma UpdateKeepsIndexed(idx: seq<Slot>, es: seq<ByteEntry>, version: nat, shift: nat,
                           slotOf: seq<nat>, dist: seq<nat>, i: nat, e: ByteEntry)
    requires Indexed(idx, es, version, shift, slotOf, dist)
    requires i < |es| && e.addr == es[i].addr
    ensures Indexed(idx, es[i := e], version, shift, slotOf, dist)
  {
    var es' := es[i := e];
    assert forall k :: 0 <= k < |es| ==> es'[k].addr == es[k].addr;
  }

  /** An index with no live slot indexes no entry. */
  lemma EmptyIndexed(idx: seq<Slot>, version: nat, shift: nat)
    requires shift <= 32 && |idx| == Pow2(32 - shift)
    requires forall h :: 0 <= h < |idx| ==> idx[h].version < version
    ensures Indexed(idx, [], version, shift, [], [])
  {
  }
}
