/**
 * The redo log of the lazy STMs (include/stm/WriteSet.hpp,
 * build/libstm/types.cpp): a list of byte-logging entries in insertion
 * order plus a hashed index over it, cleared in O(1) by bumping a version
 * number.  The list's contents are specified by InsertSpec and FindSpec on
 * sequences; the class proves its index keeps them reachable.
 */
module WriteSet {
  import opened Word
  import opened WriteSetEntry
  import opened WriteSetIndex
  import opened Unsigned
  import UndoLog

  datatype Option<T> = None | Some(value: T)

  /** Position of the entry for address `a`, if any. */
  function IndexOf(es: seq<ByteEntry>, a: nat): (r: Option<nat>)
    ensures r.Some? ==> r.value < |es| && es[r.value].addr == a
    ensures r.None? ==> forall i :: 0 <= i < |es| ==> es[i].addr != a
  {
    if es == [] then None
    else if es[0].addr == a then Some(0)
    else match IndexOf(es[1..], a)
      case None => None
      case Some(i) => Some(i + 1)
  }

  ghost predicate Distinct(es: seq<ByteEntry>)
  {
    forall i, j :: 0 <= i < j < |es| ==> es[i].addr != es[j].addr
  }

  /** With distinct addresses the entry IndexOf finds is the only one. */
  lemma IndexOfUnique(es: seq<ByteEntry>, a: nat, i: nat)
    requires Distinct(es) && i < |es| && es[i].addr == a
    ensures IndexOf(es, a) == Some(i)
  {
  }

  /**
   * find under byte logging: no entry, or an entry sharing no byte with the
   * requested mask, is a miss and clears the mask; otherwise the entry's
   * value and mask are returned.
   */
  function FindSpec(es: seq<ByteEntry>, log: ByteEntry): (r: (bool, ByteEntry))
    requires Distinct(es)
    ensures r.1.addr == log.addr
    ensures r.0 <==> exists i :: 0 <= i < |es| && es[i].addr == log.addr && And(log.mask, es[i].mask) != Zero
    ensures !r.0 ==> r.1 == log.(mask := Zero)
    ensures forall i :: 0 <= i < |es| && es[i].addr == log.addr && r.0 ==>
      r.1.val == es[i].val && r.1.mask == es[i].mask
  {
    match IndexOf(es, log.addr)
    case None => (false, log.(mask := Zero))
    case Some(i) =>
      assert forall j :: 0 <= j < |es| && es[j].addr == log.addr ==> j == i;
      if And(log.mask, es[i].mask) == Zero then (false, log.(mask := Zero))
      else (true, log.(val := es[i].val, mask := es[i].mask))
  }

  /**
   * insert: a write to a logged address is coalesced into its entry with
   * ByteUpdate; a write to a new address is appended.
   */
  function InsertSpec(es: seq<ByteEntry>, log: ByteEntry): (r: seq<ByteEntry>)
    requires Distinct(es)
    ensures Distinct(r)
    ensures IndexOf(es, log.addr).Some? ==> |r| == |es|
    ensures IndexOf(es, log.addr).None? ==> |r| == |es| + 1 && r[|es|] == log
    ensures forall i :: 0 <= i < |es| && es[i].addr != log.addr ==> r[i] == es[i]
    ensures forall i :: 0 <= i < |es| && es[i].addr == log.addr ==> r[i] == ByteUpdate(es[i], log)
  {
    match IndexOf(es, log.addr)
    case None => es + [log]
    case Some(i) =>
      assert forall j :: 0 <= j < |es| && es[j].addr == log.addr ==> j == i;
      es[i := ByteUpdate(es[i], log)]
  }

  lemma InsertNew(es: seq<ByteEntry>, log: ByteEntry)
    requires Distinct(es) && forall i :: 0 <= i < |es| ==> es[i].addr != log.addr
    ensures InsertSpec(es, log) == es + [log]
  {
  }

  lemma InsertExisting(es: seq<ByteEntry>, log: ByteEntry, i: nat)
    requires Distinct(es) && i < |es| && es[i].addr == log.addr
    ensures InsertSpec(es, log) == es[i := ByteUpdate(es[i], log)]
  {
    IndexOfUnique(es, log.addr, i);
  }

  /**
   * Read after write: once `log` is inserted, a find for its address
   * returns, for every byte both requested and written by `log`, the byte
   * `log` wrote.
   */
  lemma FindAfterInsert(es: seq<ByteEntry>, log: ByteEntry, q: ByteEntry, k: nat)
    requires Distinct(es) && IsByteMask(log.mask)
    requires q.addr == log.addr && k < WORD && q.mask[k] == 0xFF && log.mask[k] == 0xFF
    ensures FindSpec(InsertSpec(es, log), q).0
    ensures FindSpec(InsertSpec(es, log), q).1.val[k] == log.val[k]
  {
    var es' := InsertSpec(es, log);
    var i := if IndexOf(es, log.addr).Some? then IndexOf(es, log.addr).value else |es|;
    assert es'[i].addr == q.addr;
    assert es'[i].mask[k] == 0xFF;
    assert And(q.mask, es'[i].mask)[k] != 0;
  }

  /**
   * Word-logging round trip: after inserting a full-mask write of `v`, any
   * find for that address returns `v` with a full mask.
   */
  lemma FullWriteThenFind(es: seq<ByteEntry>, a: nat, v: Word, q: ByteEntry)
    requires Distinct(es) && q.addr == a && q.mask != Zero
    ensures FindSpec(InsertSpec(es, ByteEntry(a, v, Ones)), q) == (true, q.(val := v, mask := Ones))
  {
    var log := ByteEntry(a, v, Ones);
    var es' := InsertSpec(es, log);
    var i := if IndexOf(es, a).Some? then IndexOf(es, a).value else |es|;
    if i < |es| {
      FullMaskUpdateReplaces(es[i], log);
    }
    assert es'[i] == log;
    IndexOfUnique(es', a, i);
    AndOnes(q.mask);
  }

  /** Inserting at one address leaves finds at every other address unchanged. */
  lemma InsertLeavesOthers(es: seq<ByteEntry>, log: ByteEntry, q: ByteEntry)
    requires Distinct(es) && q.addr != log.addr
    ensures FindSpec(InsertSpec(es, log), q) == FindSpec(es, q)
  {
    var es' := InsertSpec(es, log);
    match IndexOf(es, q.addr)
    case None =>
      assert forall i :: 0 <= i < |es'| ==> es'[i].addr != q.addr;
    case Some(i) =>
      assert es'[i] == es[i];
  }

  /** Memory bytes no entry of `es` writes. */
  ghost predicate Untouched(es: seq<ByteEntry>, a: nat)
  {
    forall i :: 0 <= i < |es| ==> !Selects(es[i].addr, es[i].mask, a)
  }

  /** Distinct word-aligned addresses name disjoint words. */
  lemma AlignedDisjoint(x: nat, y: nat)
    requires x % WORD == 0 && y % WORD == 0 && x != y
    ensures x + WORD <= y || y + WORD <= x
  {
  }

  /** Every entry's word lies inside a memory of `size` bytes. */
  ghost predicate InMemory(es: seq<ByteEntry>, size: nat)
  {
    forall i :: 0 <= i < |es| ==> es[i].addr + WORD <= size
  }

  /** The memory after performing the writes of `es`, first to last. */
  function WritebackAll(m: seq<bv8>, es: seq<ByteEntry>): (r: seq<bv8>)
    requires InMemory(es, |m|)
    ensures |r| == |m|
    decreases |es|
  {
    if es == [] then m
    else
      assert InMemory(es[..|es| - 1], |m|);
      ByteWriteback(WritebackAll(m, es[..|es| - 1]), es[|es| - 1])
  }

  /**
   * Entries of a write set name distinct aligned words, so after writeback
   * each byte an entry holds has that entry's value and every byte no entry
   * holds is unchanged: the order of writeback does not matter.
   */
  lemma {:induction false} WritebackAllBytes(m: seq<bv8>, es: seq<ByteEntry>, a: nat)
    requires Distinct(es) && a < |m| && InMemory(es, |m|)
    requires forall i :: 0 <= i < |es| ==> es[i].addr % WORD == 0
    ensures Untouched(es, a) ==> WritebackAll(m, es)[a] == m[a]
    ensures forall i :: 0 <= i < |es| && Selects(es[i].addr, es[i].mask, a) ==> WritebackAll(m, es)[a] == es[i].val[a - es[i].addr]
    decreases |es|
  {
    if es != [] {
      var n := |es| - 1;
      var init := es[..n];
      assert forall i :: 0 <= i < n ==> init[i] == es[i];
      WritebackAllBytes(m, init, a);
      forall i | 0 <= i < n && Selects(es[i].addr, es[i].mask, a)
        ensures !Selects(es[n].addr, es[n].mask, a)
      {
        AlignedDisjoint(es[i].addr, es[n].addr);
      }
    }
  }

  /**
   * The constructor's sizing loop: from shift 32 and length 0, double the
   * index length until it holds three slots per entry of the capacity.
   */
  method InitialIndexLength(initialCapacity: nat) returns (s: nat, len: nat)
    requires 1 <= initialCapacity && 3 * initialCapacity <= U32
    ensures s <= 30 && len == Pow2(32 - s)
    ensures 3 * initialCapacity <= len < 6 * initialCapacity
  {
    s := 32;
    len := 0;
    Pow2Of32();
    while len < 3 * initialCapacity
      invariant s <= 32 && (s == 32 ==> len == 0) && (s < 32 ==> len == Pow2(32 - s))
      invariant s < 32 ==> Pow2(31 - s) < 3 * initialCapacity
      decreases s
    {
      s := s - 1;
      len := Pow2(32 - s);
    }
  }

  /** The largest size_t plus one: the version counter wraps there. */
  const SIZE_T_LIMIT: nat := U64

  /**
   * doubleIndexLength as written: `1 << (32 - shift)` is computed on a
   * 32-bit int and then widened to size_t, so at 31 the sign bit is set and
   * the length sign-extends to a huge value.
   */
  function IndexLengthAsWritten(k: nat): (r: nat)
    requires k <= 31
  {
    var v := Pow2(k);
    if v < 0x8000_0000 then v else SIZE_T_LIMIT - U32 + v
  }

  /** Doubling a 2^30-slot index as written yields 2^64 - 2^31, not 2^31. */
  lemma IndexLengthAsWrittenOverflows()
    ensures Pow2(31) == 0x8000_0000
    ensures IndexLengthAsWritten(31) == 0xFFFF_FFFF_8000_0000
  {
    Pow2Add(15, 16);
    assert Pow2(15) == 0x8000;
    assert Pow2(16) == 0x1_0000;
  }

  /** The write set's invariant on values: live slots carry no later version, entries are word aligned, and the index is exact. */
  ghost predicate Sound(idx: seq<Slot>, es: seq<ByteEntry>, version: nat, shift: nat,
                        slotOf: seq<nat>, dist: seq<nat>)
  {
    (forall h :: 0 <= h < |idx| ==> idx[h].version <= version)
    && (forall i :: 0 <= i < |es| ==> es[i].addr % WORD == 0)
    && Indexed(idx, es, version, shift, slotOf, dist)
  }

  /** Appending an aligned entry for a missing address at the free slot `d` probes away keeps the invariant. */
  lemma AppendSound(idx: seq<Slot>, es: seq<ByteEntry>, version: nat, shift: nat,
                    slotOf: seq<nat>, dist: seq<nat>, log: ByteEntry, d: nat)
    requires Sound(idx, es, version, shift, slotOf, dist) && log.addr % WORD == 0
    requires idx[Probe(log.addr, d, shift)].version != version
    requires forall j :: 0 <= j < d ==>
      idx[Probe(log.addr, j, shift)].version == version && idx[Probe(log.addr, j, shift)].address != log.addr
    ensures InsertSpec(es, log) == es + [log]
    ensures Sound(idx[Probe(log.addr, d, shift) := Slot(version, log.addr, |es|)], es + [log], version, shift,
                  slotOf + [Probe(log.addr, d, shift)], dist + [d])
  {
    ProbeMiss(idx, es, version, shift, slotOf, dist, log.addr, d);
    AddAt(idx, es, version, shift, slotOf, dist, log, d);
    InsertNew(es, log);
  }

  /** An index with no live slot is a sound index of no entries. */
  lemma EmptySound(idx: seq<Slot>, version: nat, shift: nat)
    requires shift <= 32 && |idx| == Pow2(32 - shift)
    requires forall h :: 0 <= h < |idx| ==> idx[h].version < version
    ensures Sound(idx, [], version, shift, [], [])
  {
    EmptyIndexed(idx, version, shift);
  }

  class WriteSet {
    var index: array<Slot>
    var shift: nat
    var ilength: nat
    var version: nat
    var list: array<ByteEntry>
    var capacity: nat
    var lsize: nat
    /** For each list entry, its slot and the probe distance to it. */
    ghost var slotOf: seq<nat>
    ghost var dist: seq<nat>

    /** The logged writes, in insertion order. */
    ghost function Entries(): (r: seq<ByteEntry>)
      reads this, list
      requires lsize <= list.Length
    {
      list[..lsize]
    }

    /** The index invariant, with the list allowed to be full and the index up to a third full. */
    ghost predicate Core()
      reads this, index, list
    {
      shift <= 30 && ilength == Pow2(32 - shift) && index.Length == ilength
      && 1 <= version < SIZE_T_LIMIT
      && 1 <= capacity && lsize <= capacity && list.Length == capacity && lsize < ilength
      && Sound(index[..], list[..lsize], version, shift, slotOf, dist)
    }

    /** Between operations the list has room and the index is less than a third full. */
    ghost predicate Valid()
      reads this, index, list
    {
      Core() && lsize < capacity && 3 * lsize < ilength
    }

    /** size(): the number of distinct logged addresses. */
    function Size(): (r: nat)
      reads this, index, list
      requires Valid()
      ensures r == |Entries()|
    {
      lsize
    }

    /**
     * The probe loop shared by find, insert and rebuild: from the key's hash,
     * step `h = (h + 1) % ilength` past live slots holding other addresses.
     */
    method Locate(a: nat, ghost free: nat) returns (h: nat, ghost d: nat)
      requires shift <= 32 && ilength == index.Length == Pow2(32 - shift)
      requires free < index.Length && index[free].version != version
      ensures h < index.Length && h == Probe(a, d, shift)
      ensures forall j :: 0 <= j < d ==>
        index[Probe(a, j, shift)].version == version && index[Probe(a, j, shift)].address != a
      ensures index[h].version == version ==> index[h].address == a
    {
      ghost var fd := ProbeReaches(a, free, shift);
      h := Hash(a, shift);
      d := 0;
      while index[h].version == version && index[h].address != a
        invariant h == Probe(a, d, shift) && d <= fd
        invariant forall j :: 0 <= j < d ==>
          index[Probe(a, j, shift)].version == version && index[Probe(a, j, shift)].address != a
        decreases fd - d
      {
        assert d != fd;
        assert Probe(a, d + 1, shift) == (h + 1) % ilength;
        h := (h + 1) % ilength;
        d := d + 1;
      }
    }

    /** find: the logged value and mask for the entry's address, if it shares a byte with the request. */
    method Find(log: ByteEntry) returns (found: bool, r: ByteEntry)
      requires Valid()
      ensures (found, r) == FindSpec(Entries(), log)
    {
      ghost var free := FreeSlotExists(index[..], list[..lsize], version, shift, slotOf, dist);
      var h;
      ghost var d;
      h, d := Locate(log.addr, free);
      if index[h].version != version {
        ProbeMiss(index[..], list[..lsize], version, shift, slotOf, dist, log.addr, d);
        return false, log.(mask := Zero);
      }
      ProbeHit(index[..], list[..lsize], version, shift, slotOf, dist, h);
      var i := index[h].idx;
      IndexOfUnique(list[..lsize], log.addr, i);
      var entry := list[i];
      if And(log.mask, entry.mask) == Zero {
        return false, log.(mask := Zero);
      }
      return true, log.(val := entry.val, mask := entry.mask);
    }

    /** The coalescing branch of insert: the probe found the address at slot `h`. */
    method Coalesce(log: ByteEntry, h: nat)
      requires Valid() && h < index.Length && index[h].version == version && index[h].address == log.addr
      modifies list
      ensures Valid() && Entries() == InsertSpec(old(Entries()), log)
    {
      ghost var es := list[..lsize];
      ProbeHit(index[..], es, version, shift, slotOf, dist, h);
      var i := index[h].idx;
      InsertExisting(es, log, i);
      var updated := ByteUpdate(list[i], log);
      UpdateKeepsIndexed(index[..], es, version, shift, slotOf, dist, i, updated);
      list[i] := updated;
      assert list[..lsize] == es[i := updated];
    }

    /** The appending branch of insert: the probe stopped at free slot `h` after `d` steps. */
    method Append(log: ByteEntry, h: nat, ghost d: nat)
      requires Valid() && log.addr % WORD == 0
      requires h < index.Length && h == Probe(log.addr, d, shift) && index[h].version != version
      requires forall j :: 0 <= j < d ==>
        index[Probe(log.addr, j, shift)].version == version && index[Probe(log.addr, j, shift)].address != log.addr
      modifies this, index, list
      ensures Core() && Entries() == InsertSpec(old(Entries()), log)
      ensures lsize == old(lsize) + 1 && version == old(version) && capacity == old(capacity)
      ensures shift == old(shift) && ilength == old(ilength) && list == old(list) && index == old(index)
    {
      ghost var idx := index[..];
      ghost var es := list[..lsize];
      AppendSound(idx, es, version, shift, slotOf, dist, log, d);
      list[lsize] := log;
      index[h] := Slot(version, log.addr, lsize);
      slotOf := slotOf + [h];
      dist := dist + [d];
      lsize := lsize + 1;
      assert index[..] == idx[h := Slot(version, log.addr, |es|)];
      assert list[..lsize] == es + [log];
    }

    /**
     * insert: coalesce into the entry for the address, or append a new entry
     * and index it at the free slot the probe stopped at; then grow the list
     * when it is full and the index when it is a third full.
     */
    method Insert(log: ByteEntry)
      requires Valid() && log.addr % WORD == 0 && 3 * (lsize + 1) < U32
      modifies this, index, list
      ensures Valid()
      ensures Entries() == InsertSpec(old(Entries()), log)
      ensures version == old(version)
    {
      ghost var free := FreeSlotExists(index[..], list[..lsize], version, shift, slotOf, dist);
      var h;
      ghost var d;
      h, d := Locate(log.addr, free);
      if index[h].version == version {
        Coalesce(log, h);
        return;
      }
      Append(log, h, d);
      Grow();
    }

    /** The growth steps that end insert: resize a full list, rebuild a third-full index. */
    method Grow()
      requires Core() && 3 * lsize < ilength + 3 && 3 * lsize < U32
      modifies this
      ensures Valid() && Entries() == old(Entries()) && version == old(version)
    {
      if lsize == capacity {
        GrowList();
      }
      if lsize * 3 >= ilength {
        GrowIndex();
      }
    }

    /** The first growth step: a full list doubles its capacity. */
    method GrowList()
      requires Core() && lsize == capacity
      modifies this
      ensures Core() && lsize < capacity && Entries() == old(Entries())
      ensures index == old(index) && shift == old(shift) && ilength == old(ilength) && version == old(version)
    {
      ghost var es := list[..lsize];
      Resize();
      assert list[..lsize] == es;
    }

    /** The second growth step: an index at least a third full is rebuilt at twice the length. */
    method GrowIndex()
      requires Core() && lsize < capacity && ilength <= 3 * lsize < ilength + 3 && 3 * lsize < U32
      modifies this
      ensures Valid() && Entries() == old(Entries()) && version == old(version)
    {
      Pow2Of32();
      assert 1 <= shift;
      Rebuild();
    }

    /** doubleIndexLength: one bit less of shift, twice the slots. */
    method DoubleIndexLength() returns (len: nat)
      requires 1 <= shift <= 32
      modifies this
      ensures shift == old(shift) - 1 && ilength == Pow2(32 - shift) && len == ilength
      ensures ilength == 2 * Pow2(32 - old(shift))
      ensures index == old(index) && list == old(list) && version == old(version)
      ensures capacity == old(capacity) && lsize == old(lsize)
      ensures slotOf == old(slotOf) && dist == old(dist)
    {
      shift := shift - 1;
      ilength := Pow2(32 - shift);
      len := ilength;
    }

    /** rebuild: a fresh index of twice the length, with every list entry re-inserted in order. */
    method Rebuild()
      requires 1 <= shift <= 30 && ilength == Pow2(32 - shift) && index.Length == ilength
      requires 1 <= version < SIZE_T_LIMIT && lsize <= list.Length && lsize < 2 * ilength
      requires Distinct(list[..lsize])
      modifies this
      ensures fresh(index) && index.Length == ilength
      ensures shift == old(shift) - 1 && ilength == 2 * old(ilength)
      ensures list == old(list) && lsize == old(lsize) && version == old(version) && capacity == old(capacity)
      ensures forall h :: 0 <= h < index.Length ==> index[h].version <= version
      ensures Indexed(index[..], list[..lsize], version, shift, slotOf, dist)
    {
      var len := DoubleIndexLength();
      index := new Slot[len](_ => Slot(0, 0, 0));
      slotOf := [];
      dist := [];
      EmptyIndexed(index[..], version, shift);
      ghost var es := list[..lsize];
      var i := 0;
      while i < lsize
        invariant 0 <= i <= lsize
        invariant shift <= 29 && fresh(index) && index.Length == ilength && ilength == Pow2(32 - shift)
        invariant shift == old(shift) - 1 && ilength == 2 * old(ilength)
        invariant list == old(list) && lsize == old(lsize) && version == old(version) && capacity == old(capacity)
        invariant forall h :: 0 <= h < index.Length ==> index[h].version <= version
        invariant Indexed(index[..], list[..i], version, shift, slotOf, dist)
      {
        forall j | 0 <= j < i
          ensures list[j].addr != list[i].addr
        {
          assert list[j] == es[j] && list[i] == es[i];
        }
        Reinsert(i);
        i := i + 1;
      }
    }

    /** One step of rebuild: index list entry `i` at the first free slot of its probe sequence. */
    method Reinsert(i: nat)
      requires shift <= 29 && index.Length == ilength == Pow2(32 - shift)
      requires i < lsize <= list.Length && i < ilength
      requires forall j :: 0 <= j < i ==> list[j].addr != list[i].addr
      requires forall h :: 0 <= h < index.Length ==> index[h].version <= version
      requires Indexed(index[..], list[..i], version, shift, slotOf, dist)
      modifies index, this`slotOf, this`dist
      ensures forall h :: 0 <= h < index.Length ==> index[h].version <= version
      ensures Indexed(index[..], list[..i + 1], version, shift, slotOf, dist)
    {
      var a := list[i].addr;
      ghost var idx := index[..];
      ghost var es := list[..i];
      ghost var free := FreeSlotExists(idx, es, version, shift, slotOf, dist);
      var h;
      ghost var d;
      h, d := Locate(a, free);
      assert index[h].version != version by {
        if index[h].version == version {
          ProbeHit(idx, es, version, shift, slotOf, dist, h);
        }
      }
      AddAt(idx, es, version, shift, slotOf, dist, list[i], d);
      index[h] := Slot(version, a, i);
      assert index[..] == idx[h := Slot(version, a, |es|)];
      slotOf := slotOf + [h];
      dist := dist + [d];
      assert list[..i + 1] == es + [list[i]];
    }

    /** resize: a list of twice the capacity holding the same first lsize entries. */
    method Resize()
      requires lsize <= capacity == list.Length && capacity >= 1
      modifies this
      ensures fresh(list) && capacity == 2 * old(capacity) && list.Length == capacity && lsize <= capacity
      ensures list[..lsize] == old(list[..lsize])
      ensures index == old(index) && shift == old(shift) && ilength == old(ilength) && version == old(version)
      ensures lsize == old(lsize) && slotOf == old(slotOf) && dist == old(dist)
    {
      var temp := list;
      capacity := capacity * 2;
      list := new ByteEntry[capacity](_ => ByteEntry(0, Zero, Zero));
      forall i | 0 <= i < lsize {
        list[i] := temp[i];
      }
    }

    /**
     * reset: empty the list and bump the version, which frees every slot at
     * once; when the version wraps to 0 the index is zeroed and the version
     * restarts at 1.
     */
    method Reset()
      requires Valid()
      modifies this, index
      ensures Valid() && Entries() == []
      ensures old(version) + 1 < SIZE_T_LIMIT ==> version == old(version) + 1
      ensures old(version) + 1 == SIZE_T_LIMIT ==> version == 1
      ensures index == old(index) && list == old(list) && capacity == old(capacity)
      ensures shift == old(shift) && ilength == old(ilength)
    {
      ghost var idx := index[..];
      assert forall h :: 0 <= h < |idx| ==> idx[h].version < version + 1;
      lsize := 0;
      version := if version + 1 == SIZE_T_LIMIT then 0 else version + 1;
      slotOf := [];
      dist := [];
      assert list[..lsize] == [];
      if version != 0 {
        EmptySound(idx, version, shift);
        return;
      }
      ResetInternal();
      EmptySound(index[..], version, shift);
    }

    /** reset_internal: zero every slot and restart the version at 1. */
    method ResetInternal()
      modifies this, index
      ensures forall h :: 0 <= h < index.Length ==> index[h] == Slot(0, 0, 0)
      ensures version == 1
      ensures index == old(index) && list == old(list) && capacity == old(capacity) && lsize == old(lsize)
      ensures shift == old(shift) && ilength == old(ilength) && slotOf == old(slotOf) && dist == old(dist)
    {
      forall h | 0 <= h < index.Length {
        index[h] := Slot(0, 0, 0);
      }
      version := 1;
    }

    /** writeback: perform every logged write in list order. */
    method Writeback(mem: array<bv8>)
      requires lsize <= list.Length && InMemory(Entries(), mem.Length) && list as object != mem
      modifies mem
      ensures mem[..] == WritebackAll(old(mem[..]), old(Entries()))
    {
      ghost var es := list[..lsize];
      var i := 0;
      while i < lsize
        invariant 0 <= i <= lsize && lsize <= list.Length && |es| == lsize
        invariant forall j :: 0 <= j < lsize ==> list[j] == es[j]
        invariant InMemory(es, mem.Length) && InMemory(es[..i], mem.Length)
        invariant mem[..] == WritebackAll(old(mem[..]), es[..i])
      {
        var e := list[i];
        assert es[i] == e;
        UndoLog.DoMaskedWrite(mem, e.addr, e.val, e.mask);
        assert es[..i + 1][..i] == es[..i];
        i := i + 1;
      }
      assert es[..i] == es;
    }

    /**
     * The constructor: version 1 and the smallest power-of-two index with at
     * least three slots per list entry of the initial capacity.
     */
    constructor(initialCapacity: nat)
      requires 1 <= initialCapacity && 3 * initialCapacity <= U32
      ensures Valid() && fresh(index) && fresh(list)
      ensures Entries() == [] && version == 1 && capacity == initialCapacity
      ensures 3 * initialCapacity <= ilength < 6 * initialCapacity
    {
      var s, len := InitialIndexLength(initialCapacity);
      shift := s;
      ilength := len;
      version := 1;
      capacity := initialCapacity;
      lsize := 0;
      index := new Slot[len](_ => Slot(0, 0, 0));
      list := new ByteEntry[initialCapacity](_ => ByteEntry(0, Zero, Zero));
      slotOf := [];
      dist := [];
      new;
      EmptyIndexed(index[..], version, shift);
    }
  }
}
