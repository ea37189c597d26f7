/**
 * BitFilter (BitFilter.hpp), word path, as instantiated for the runtime's
 * read and write signatures (BitFilter<1024>, metadata.hpp): a 1024-bit
 * Bloom filter over addresses, stored as sixteen 64-bit words.  A filter
 * word is a MachineWord.Word64.
 */
module BitFilter {
  import opened MachineWord

  const BITS: nat := 1024
  /** 8 * sizeof(uintptr_t) */
  const WORD_SIZE: nat := WORD_BITS
  /** BITS / WORD_SIZE */
  const WORD_BLOCKS: nat := 16

  type FilterWord = Word64

  const Empty: FilterWord := Zero64

  /** hash: drop the three low address bits, then reduce modulo BITS. */
  function Hash(key: nat): (r: nat)
    ensures r < BITS
  {
    StripeOf(key, BITS)
  }

  /** The filter word holding the key's hash index. */
  function Block(key: nat): (r: nat)
    ensures r < WORD_BLOCKS
  {
    Hash(key) / WORD_SIZE
  }

  /** The bit of that word. */
  function Offset(key: nat): (r: nat)
    ensures r < WORD_SIZE
  {
    Hash(key) % WORD_SIZE
  }

  /** Distinct hash indices name distinct (word, bit) positions. */
  lemma PositionsDistinct(a: nat, b: nat)
    requires Hash(a) != Hash(b)
    ensures Block(a) != Block(b) || Offset(a) != Offset(b)
  {
  }

  /** Filter bit `o` of word `b` is set in the words `w`. */
  ghost predicate Has(w: seq<FilterWord>, b: nat, o: nat)
    requires |w| == WORD_BLOCKS && b < WORD_BLOCKS && o < WORD_SIZE
  {
    w[b][o]
  }

  /** Some word of `a` shares a set bit with the same word of `b`. */
  ghost predicate Overlap(a: seq<FilterWord>, b: seq<FilterWord>)
    requires |a| == WORD_BLOCKS && |b| == WORD_BLOCKS
  {
    exists i :: 0 <= i < WORD_BLOCKS && Meets(a[i], b[i])
  }

  /** intersect is symmetric. */
  lemma OverlapSymmetric(a: seq<FilterWord>, b: seq<FilterWord>)
    requires |a| == WORD_BLOCKS && |b| == WORD_BLOCKS
    ensures Overlap(a, b) <==> Overlap(b, a)
  {
    if Overlap(a, b) {
      var i :| 0 <= i < WORD_BLOCKS && Meets(a[i], b[i]);
      MeetsSymmetric(a[i], b[i]);
    }
    if Overlap(b, a) {
      var i :| 0 <= i < WORD_BLOCKS && Meets(b[i], a[i]);
      MeetsSymmetric(b[i], a[i]);
    }
  }

  /**
   * Overlap is exactly a shared filter bit: intersect reports a conflict
   * iff some (word, bit) position is set in both filters, so it has no
   * false negatives for addresses added to both.
   */
  lemma OverlapIsSharedBit(a: seq<FilterWord>, b: seq<FilterWord>)
    requires |a| == WORD_BLOCKS && |b| == WORD_BLOCKS
    ensures Overlap(a, b) <==>
      exists i, o :: 0 <= i < WORD_BLOCKS && 0 <= o < WORD_SIZE && Has(a, i, o) && Has(b, i, o)
  {
    if Overlap(a, b) {
      var i :| 0 <= i < WORD_BLOCKS && Meets(a[i], b[i]);
      var o :| 0 <= o < WORD_SIZE && a[i][o] && b[i][o];
      assert Has(a, i, o) && Has(b, i, o);
    }
    if exists i, o :: 0 <= i < WORD_BLOCKS && 0 <= o < WORD_SIZE && Has(a, i, o) && Has(b, i, o) {
      var i, o :| 0 <= i < WORD_BLOCKS && 0 <= o < WORD_SIZE && Has(a, i, o) && Has(b, i, o);
      assert Meets(a[i], b[i]);
    }
  }

  class BitFilter {
    var words: array<FilterWord>

    ghost predicate Valid()
      reads this
    {
      words.Length == WORD_BLOCKS
    }

    /** The constructor clears the filter. */
    constructor()
      ensures Valid() && fresh(words)
      ensures forall b, o :: 0 <= b < WORD_BLOCKS && 0 <= o < WORD_SIZE ==> !Has(words[..], b, o)
    {
      words := new FilterWord[WORD_BLOCKS](_ => Empty);
      new;
      Clear();
    }

    /** add: set the bit of the key's hash index. */
    method Add(key: nat)
      requires Valid()
      modifies words
      ensures Lookup(key)
      ensures forall b, o :: 0 <= b < WORD_BLOCKS && 0 <= o < WORD_SIZE ==>
        (Has(words[..], b, o) <==> (b == Block(key) && o == Offset(key)) || Has(old(words[..]), b, o))
    {
      var block := Block(key);
      var offset := Offset(key);
      words[block] := Or(words[block], Bit(offset));
    }

    /** lookup: the bit of the key's hash index. */
    predicate Lookup(key: nat)
      reads this, words
      requires Valid()
      ensures Lookup(key) <==> Has(words[..], Block(key), Offset(key))
    {
      words[Block(key)][Offset(key)]
    }

    /** unionwith: or every word of `rhs` into this filter. */
    method UnionWith(rhs: BitFilter)
      requires Valid() && rhs.Valid()
      modifies words
      ensures forall i :: 0 <= i < WORD_BLOCKS ==> words[i] == Or(old(words[i]), old(rhs.words[i]))
      ensures forall b, o :: 0 <= b < WORD_BLOCKS && 0 <= o < WORD_SIZE ==>
        (Has(words[..], b, o) <==> Has(old(words[..]), b, o) || Has(old(rhs.words[..]), b, o))
    {
      var i := 0;
      while i < WORD_BLOCKS
        invariant 0 <= i <= WORD_BLOCKS
        invariant forall j :: 0 <= j < i ==> words[j] == Or(old(words[j]), old(rhs.words[j]))
        invariant forall j :: i <= j < WORD_BLOCKS ==> words[j] == old(words[j]) && rhs.words[j] == old(rhs.words[j])
      {
        words[i] := Or(words[i], rhs.words[i]);
        i := i + 1;
      }
    }

    /** clear: zero every word, so no address is present. */
    method Clear()
      requires Valid()
      modifies words
      ensures forall i :: 0 <= i < WORD_BLOCKS ==> words[i] == Empty
      ensures forall b, o :: 0 <= b < WORD_BLOCKS && 0 <= o < WORD_SIZE ==> !Has(words[..], b, o)
    {
      var i := 0;
      while i < WORD_BLOCKS
        invariant 0 <= i <= WORD_BLOCKS
        invariant forall j :: 0 <= j < i ==> words[j] == Empty
      {
        words[i] := Empty;
        i := i + 1;
      }
    }

    /** fastcopy: copy every word of `rhs`, so the two filters are equal. */
    method FastCopy(rhs: BitFilter)
      requires Valid() && rhs.Valid()
      modifies words
      ensures words[..] == old(rhs.words[..])
    {
      var i := 0;
      while i < WORD_BLOCKS
        invariant 0 <= i <= WORD_BLOCKS
        invariant forall j :: 0 <= j < i ==> words[j] == old(rhs.words[j])
        invariant forall j :: i <= j < WORD_BLOCKS ==> rhs.words[j] == old(rhs.words[j])
      {
        words[i] := rhs.words[i];
        i := i + 1;
      }
    }

    /** intersect: some word of the two filters shares a bit. */
    method Intersect(rhs: BitFilter) returns (r: bool)
      requires Valid() && rhs.Valid()
      ensures r <==> Overlap(words[..], rhs.words[..])
    {
      var i := 0;
      while i < WORD_BLOCKS
        invariant 0 <= i <= WORD_BLOCKS
        invariant forall j :: 0 <= j < i ==> !Meets(words[j], rhs.words[j])
      {
        if Meets(words[i], rhs.words[i]) {
          return true;
        }
        i := i + 1;
      }
      return false;
    }
  }

  /**
   * The bit the source computes: `1u << offset` is a 32-bit shift, so on
   * x86-64 the count is taken modulo 32 and the result zero-extended.
   */
  function BitAsWritten(o: nat): (r: FilterWord)
    requires o < WORD_SIZE
    ensures o < 32 ==> r == Bit(o)
  {
    Bit(o % 32)
  }

  /**
   * As written, every offset in the upper half of a word selects the same
   * bit as the offset 32 below it, while the intended bits differ: address
   * 256 (hash index 32) sets the bit of address 0 (hash index 0), so the
   * upper half of every filter word is never used.
   */
  lemma BitAsWrittenAliases()
    ensures Block(0) == Block(256) && Offset(0) == 0 && Offset(256) == 32
    ensures BitAsWritten(Offset(0)) == BitAsWritten(Offset(256))
    ensures Bit(Offset(0)) != Bit(Offset(256))
    ensures forall o :: 32 <= o < WORD_SIZE ==> !BitAsWritten(o)[o]
  {
    assert Hash(256) == 32;
    assert Bit(32)[32] != Bit(0)[32];
  }
}
