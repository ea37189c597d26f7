/**
 * Chunked transactional block copy of the ITM shim
 * (libitm2stm/BlockOperations.cpp).  Transactional memory is a byte array
 * indexed by address; a transactional read (tmread) returns the aligned word
 * and a transactional write (tmwrite) is the masked word store the STM
 * eventually performs.  The non-transactional side of a copy is a separate
 * buffer.
 */
module BlockOperations {
  import opened Word
  import opened ItmUtilities
  import UndoLog
  import Arith

  /** tmread of the aligned word at `base`. */
  function Load(m: seq<bv8>, base: nat): (r: Word)
    requires base + WORD <= |m|
    ensures forall k :: 0 <= k < WORD ==> r[k] == m[base + k]
  {
    m[base..base + WORD]
  }

  /**
   * read_subword: read the aligned word at `base` and copy its bytes
   * [i, j) to to[at..]; returns the number of bytes copied.
   */
  method ReadSubword(mem: array<bv8>, base: nat, to: array<bv8>, at: nat, i: nat, j: nat)
    returns (length: nat)
    requires i < j <= WORD && base % WORD == 0 && base + WORD <= mem.Length
    requires at + (j - i) <= to.Length && to != mem
    modifies to
    ensures length == j - i
    ensures forall a :: 0 <= a < to.Length && !(at <= a < at + length) ==> to[a] == old(to[a])
    ensures forall a :: at <= a < at + length ==> to[a] == mem[base + i + (a - at)]
  {
    var align := Load(mem[..], base);
    length := j - i;
    var k := 0;
    while k < length
      invariant 0 <= k <= length
      invariant forall a :: 0 <= a < to.Length && !(at <= a < at + k) ==> to[a] == old(to[a])
      invariant forall a :: at <= a < at + k ==> to[a] == mem[base + i + (a - at)]
    {
      to[at + k] := align[i + k];
      k := k + 1;
    }
  }

  /**
   * write_subword: place from[0..j-i) at bytes [i, j) of a zeroed word and
   * store it at `base` under make_mask(i, j); returns the number of bytes.
   */
  method WriteSubword(mem: array<bv8>, base: nat, from: seq<bv8>, i: nat, j: nat)
    returns (length: nat)
    requires i < j <= WORD && base % WORD == 0 && base + WORD <= mem.Length
    requires j - i <= |from|
    modifies mem
    ensures length == j - i
    ensures forall a :: 0 <= a < mem.Length && !(base + i <= a < base + j) ==> mem[a] == old(mem[a])
    ensures forall a :: base + i <= a < base + j ==> mem[a] == from[a - base - i]
  {
    var buffer: Word := Zero;
    length := j - i;
    var k := 0;
    while k < length
      invariant 0 <= k <= length
      invariant forall d :: 0 <= d < WORD && !(i <= d < i + k) ==> buffer[d] == 0
      invariant forall d :: i <= d < i + k ==> buffer[d] == from[d - i]
    {
      buffer := buffer[i + k := from[k]];
      k := k + 1;
    }
    var mask := MakeMask(i, j);
    UndoLog.DoMaskedWrite(mem, base, buffer, mask);
    forall a | base + i <= a < base + j
      ensures mem[a] == from[a - base - i]
    {
      assert mask[a - base] == 0xFF && buffer[a - base] == from[a - base - i];
    }
    forall a | 0 <= a < mem.Length && !(base + i <= a < base + j)
      ensures mem[a] == old(mem[a])
    {
      if base <= a < base + WORD {
        assert mask[a - base] != 0xFF;
      }
    }
  }

  /**
   * With the as-written make_mask, a two-byte write at offset 2 also stores
   * the zero bytes 4 and 5 of the staging word.
   */
  lemma SubwordWriteWithAsWrittenMaskClobbers(m: seq<bv8>, from: seq<bv8>)
    requires |m| == WORD && |from| == 2 && m[4] != 0
    ensures var buffer := [0, 0, from[0], from[1], 0, 0, 0, 0];
      UndoLog.MaskedStore(m, 0, buffer, MakeMaskAsWritten(2, 4))[4] == 0 != m[4]
  {
  }

  /** How many bytes block_read/block_write handle: all but an unaligned tail. */
  function Handled(address: Address, length: nat): (r: nat)
    ensures r <= length && length - r < WORD
    ensures OffsetOf(address) + length <= WORD ==> r == length
    ensures length > 0 ==> r > 0
  {
    var offset := OffsetOf(address);
    if offset != 0 || offset + length <= WORD then
      var prefix := if offset + length > WORD then WORD - offset else length;
      prefix + (length - prefix) / WORD * WORD
    else
      length / WORD * WORD
  }

  /**
   * The word loop of block_read: as many whole words of the `rest` bytes as
   * fit, from aligned `base` to to[at..]; returns the bytes read.
   */
  method ReadWords(mem: array<bv8>, base: nat, to: array<bv8>, at: nat, rest: nat)
    returns (n: nat)
    requires base % WORD == 0 && base + rest <= mem.Length
    requires at + rest <= to.Length && to != mem
    modifies to
    ensures n == rest / WORD * WORD
    ensures forall a :: 0 <= a < to.Length && !(at <= a < at + n) ==> to[a] == old(to[a])
    ensures forall a :: at <= a < at + n ==> to[a] == mem[base + (a - at)]
  {
    var words := rest / WORD;
    assert words * WORD <= rest;
    n := words * WORD;
    var i, done := 0, 0;
    while i < words
      invariant 0 <= i <= words && done == i * WORD && done <= n
      invariant forall a :: 0 <= a < to.Length && !(at <= a < at + done) ==> to[a] == old(to[a])
      invariant forall a :: at <= a < at + done ==> to[a] == mem[base + (a - at)]
    {
      Arith.MulMonotone(i + 1, words, WORD);
      var w := Load(mem[..], base + done);
      forall k | 0 <= k < WORD {
        to[at + done + k] := w[k];
      }
      i, done := i + 1, done + WORD;
    }
  }

  /**
   * block_read: copy `length` bytes from transactional address `source` to
   * target[0..]; an unaligned prefix is read as a subword, then whole words;
   * an unaligned tail is left to the caller.  Returns the bytes read.
   */
  method BlockRead(mem: array<bv8>, target: array<bv8>, source: Address, length: nat)
    returns (read: nat)
    requires mem.Length % WORD == 0 && source + length <= mem.Length
    requires length <= target.Length && target != mem
    modifies target
    ensures read == Handled(source, length)
    ensures forall a :: read <= a < target.Length ==> target[a] == old(target[a])
    ensures forall a :: 0 <= a < read ==> target[a] == mem[source + a]
  {
    read := 0;
    if length == 0 {
      return;
    }
    var offset := OffsetOf(source);
    var base := BaseOf(source);
    if offset != 0 || offset + length <= WORD {
      var end := offset + length;
      if end > WORD {
        end := WORD;
      }
      read := ReadSubword(mem, base, target, 0, offset, end);
      if read == length {
        return;
      }
      base := base + WORD;
    }
    assert base % WORD == 0 && base == source + read;
    var n := ReadWords(mem, base, target, read, length - read);
    read := read + n;
  }

  /**
   * The word loop of block_write: as many whole words of the `rest` bytes of
   * from[at..] as fit, to aligned `base`; returns the bytes written.
   */
  method WriteWords(mem: array<bv8>, base: nat, from: seq<bv8>, at: nat, rest: nat)
    returns (n: nat)
    requires base % WORD == 0 && base + rest <= mem.Length
    requires at + rest <= |from|
    modifies mem
    ensures n == rest / WORD * WORD
    ensures forall a :: 0 <= a < mem.Length && !(base <= a < base + n) ==> mem[a] == old(mem[a])
    ensures forall a :: base <= a < base + n ==> mem[a] == from[at + (a - base)]
  {
    var words := rest / WORD;
    assert words * WORD <= rest;
    n := words * WORD;
    FullWordMask();
    var i, done := 0, 0;
    while i < words
      invariant 0 <= i <= words && done == i * WORD && done <= n
      invariant forall a :: 0 <= a < mem.Length && !(base <= a < base + done) ==> mem[a] == old(mem[a])
      invariant forall a :: base <= a < base + done ==> mem[a] == from[at + (a - base)]
    {
      Arith.MulMonotone(i + 1, words, WORD);
      var b := base + done;
      var w: Word := from[at + done..at + done + WORD];
      UndoLog.DoMaskedWrite(mem, b, w, MakeMask(0, WORD));
      forall a | b <= a < b + WORD
        ensures mem[a] == from[at + (a - base)]
      {
        assert w[a - b] == from[at + (a - base)];
      }
      i, done := i + 1, done + WORD;
    }
  }

  /**
   * block_write: copy `length` bytes of `source` to transactional address
   * `target`; an unaligned prefix is written as a subword, then whole words;
   * an unaligned tail is left to the caller.  Returns the bytes written.
   */
  method BlockWrite(mem: array<bv8>, target: Address, source: seq<bv8>, length: nat)
    returns (written: nat)
    requires mem.Length % WORD == 0 && target + length <= mem.Length
    requires length <= |source|
    modifies mem
    ensures written == Handled(target, length)
    ensures forall a :: 0 <= a < mem.Length && !(target <= a < target + written) ==> mem[a] == old(mem[a])
    ensures forall a :: target <= a < target + written ==> mem[a] == source[a - target]
  {
    written := 0;
    if length == 0 {
      return;
    }
    var offset := OffsetOf(target);
    var base := BaseOf(target);
    if offset != 0 || offset + length <= WORD {
      var end := offset + length;
      if end > WORD {
        end := WORD;
      }
      written := WriteSubword(mem, base, source, offset, end);
      if written == length {
        return;
      }
      base := base + WORD;
    }
    assert base % WORD == 0 && base == target + written;
    var n := WriteWords(mem, base, source, written, length - written);
    written := written + n;
  }

  /** The staging word block_set initialises with `{{c}}`: c, then zero bytes. */
  function FromAsWritten(c: bv8): (r: Word)
    ensures r[0] == c && forall k :: 1 <= k < WORD ==> r[k] == 0
  {
    [c, 0, 0, 0, 0, 0, 0, 0]
  }

  /** The staging word memset needs: every byte c. */
  function Splat(c: bv8): (r: Word)
    ensures forall k :: 0 <= k < WORD ==> r[k] == c
  {
    [c, c, c, c, c, c, c, c]
  }

  /**
   * Which byte of the staging word block_set stores at address `a`: the
   * unaligned prefix takes bytes from 0, the aligned words and the tail
   * take byte `a % WORD`.
   */
  function SetIndex(target: Address, a: nat): (r: nat)
    requires target <= a
    ensures r < WORD
  {
    if OffsetOf(target) != 0 && a < BaseOf(target) + WORD then a - target else a % WORD
  }

  /** Inside an aligned word, an address's offset is its distance from the word's base. */
  lemma OffsetInWord(b: nat, a: nat)
    requires b % WORD == 0 && b <= a < b + WORD
    ensures a % WORD == a - b
  {
  }

  /** The word loop of block_set: `words` aligned words from `base`, each the staging word. */
  method SetWords(mem: array<bv8>, base: nat, from: Word, words: nat)
    requires base % WORD == 0 && base + words * WORD <= mem.Length
    modifies mem
    ensures forall a :: 0 <= a < mem.Length && !(base <= a < base + words * WORD) ==> mem[a] == old(mem[a])
    ensures forall a :: base <= a < base + words * WORD ==> mem[a] == from[a % WORD]
  {
    var i, done := 0, 0;
    while i < words
      invariant 0 <= i <= words && done == i * WORD && done <= words * WORD
      invariant forall a :: 0 <= a < mem.Length && !(base <= a < base + done) ==> mem[a] == old(mem[a])
      invariant forall a :: base <= a < base + done ==> mem[a] == from[a % WORD]
    {
      Arith.MulMonotone(i + 1, words, WORD);
      var at := base + done;
      UndoLog.DoMaskedWrite(mem, at, from, MakeMask(0, WORD));
      forall a | at <= a < at + WORD
        ensures a % WORD == a - at
      {
        OffsetInWord(at, a);
      }
      i, done := i + 1, done + WORD;
    }
  }

  /**
   * The aligned part of block_set: whole words from `base`, then a tail of
   * fewer than WORD bytes; every byte takes the staging byte of its offset.
   */
  method SetAligned(mem: array<bv8>, base: nat, from: Word, rest: nat)
    requires mem.Length % WORD == 0 && base % WORD == 0 && base + rest <= mem.Length
    modifies mem
    ensures forall a :: 0 <= a < mem.Length && !(base <= a < base + rest) ==> mem[a] == old(mem[a])
    ensures forall a :: base <= a < base + rest ==> mem[a] == from[a % WORD]
  {
    var words := rest / WORD;
    var tail := rest - words * WORD;
    assert words * WORD + tail == rest && tail < WORD;
    SetWords(mem, base, from, words);
    if tail != 0 {
      var at := base + words * WORD;
      assert at % WORD == 0 && at + WORD <= mem.Length;
      var n := WriteSubword(mem, at, from, 0, tail);
      forall a | at <= a < at + tail
        ensures a % WORD == a - at
      {
        OffsetInWord(at, a);
      }
    }
  }

  /** block_set's control flow, for a given staging word `from`. */
  method BlockSetFrom(mem: array<bv8>, target: Address, from: Word, length: nat)
    requires mem.Length % WORD == 0 && target + length <= mem.Length
    modifies mem
    ensures forall a :: 0 <= a < mem.Length && !(target <= a < target + length) ==> mem[a] == old(mem[a])
    ensures forall a :: target <= a < target + length ==> mem[a] == from[SetIndex(target, a)]
  {
    if length == 0 {
      return;
    }
    var rest := length;
    var base := BaseOf(target);
    var offset := OffsetOf(target);
    if offset != 0 || offset + rest <= WORD {
      var end := offset + rest;
      if end > WORD {
        end := WORD;
      }
      var n := WriteSubword(mem, base, from, offset, end);
      forall a | target <= a < target + n
        ensures SetIndex(target, a) == a - target
      {
        if offset == 0 {
          OffsetInWord(target, a);
        }
      }
      rest := rest - n;
      if rest == 0 {
        return;
      }
      base := base + WORD;
    }
    assert base % WORD == 0 && base == target + (length - rest);
    assert forall a :: target <= a < base ==> mem[a] == from[SetIndex(target, a)];
    forall a | base <= a < target + length
      ensures SetIndex(target, a) == a % WORD
    {
    }
    ghost var prior := mem[..];
    SetAligned(mem, base, from, rest);
    forall a | target <= a < target + length
      ensures mem[a] == from[SetIndex(target, a)]
    {
      if a < base {
        assert mem[a] == prior[a];
      }
    }
  }

  /** block_set as written: the staging word is `{{c}}`. */
  method BlockSetAsWritten(mem: array<bv8>, target: Address, c: bv8, length: nat)
    requires mem.Length % WORD == 0 && target + length <= mem.Length
    modifies mem
    ensures forall a :: 0 <= a < mem.Length && !(target <= a < target + length) ==> mem[a] == old(mem[a])
    ensures forall a :: target <= a < target + length ==> mem[a] == FromAsWritten(c)[SetIndex(target, a)]
  {
    BlockSetFrom(mem, target, FromAsWritten(c), length);
  }

  /** An aligned 8-byte block_set of c = 1 leaves byte 1 at 0, not 1. */
  lemma BlockSetAsWrittenLosesBytes()
    ensures SetIndex(0, 1) == 1 && FromAsWritten(1)[SetIndex(0, 1)] == 0
  {
  }

  /** block_set with every byte of the staging word set to c: memset semantics. */
  method BlockSet(mem: array<bv8>, target: Address, c: bv8, length: nat)
    requires mem.Length % WORD == 0 && target + length <= mem.Length
    modifies mem
    ensures forall a :: 0 <= a < mem.Length && !(target <= a < target + length) ==> mem[a] == old(mem[a])
    ensures forall a :: target <= a < target + length ==> mem[a] == c
  {
    BlockSetFrom(mem, target, Splat(c), length);
  }
}
