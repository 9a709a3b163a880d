/** Lengths and bytes of reads: the flat reference version that maps the whole file at once
    (lib/fileops_noposix.c, lines 61-102), and the chunked version that must agree with it
    (lines 328-402). */
module FlatFile {
  import opened Capacity

  /** Conversion of a `size_t` to `ssize_t`. */
  function Signed64(x: nat): int
    requires x < TWO_64
  {
    if x < TWO_63 then x else x - TWO_64
  }

  function Min(a: int, b: int): int {
    if a <= b then a else b
  }

  /** What both versions compute first. The sum wraps at 64 bits. */
  function FlatLength(length: nat, size: nat, offset: nat): int
    requires size < TWO_64 && length < TWO_63
  {
    if offset >= length then 0
    else if length >= (offset + size) % TWO_64 then Signed64(size)
    else length - offset
  }

  /** Bytes left in the chunk that holds `offset`. */
  function Room(offset: nat): (r: nat) {
    MAX_MMAP_SIZE - offset % MAX_MMAP_SIZE
  }

  /** The length do_pread returns. */
  function PreadLength(length: nat, size: nat, offset: nat): (r: nat)
    requires size < TWO_64 && length < TWO_63
    ensures r > 0 ==> offset < length && offset + r <= length && r <= Room(offset) && r <= size
  {
    var want := FlatLength(length, size, offset);
    if want <= 0 then 0 else Min(Room(offset), want)
  }

  /** The length a short read promises: what was asked, what the file has, what the chunk has. */
  function ShortRead(length: nat, size: nat, offset: nat): (r: nat) {
    if offset >= length then 0 else Min(Min(size, length - offset), Room(offset))
  }

  /** What the C conversion of a 64-bit size gives: the one number in the signed range that is congruent
      modulo 2^64. */
  lemma SignedCongruent(x: nat)
    requires x < TWO_64
    ensures -0x8000_0000_0000_0000 <= Signed64(x) < 0x8000_0000_0000_0000
    ensures (x - Signed64(x)) % 0x1_0000_0000_0000_0000 == 0
  {
  }

  /** The flat length: nothing at or past the end, the smaller of size and rest if the sum does not
      wrap, and the negative number that the size reads as if it does. */
  lemma FlatExact(length: nat, size: nat, offset: nat)
    requires size < TWO_64 && length < TWO_63
    ensures FlatLength(length, size, offset) ==
            if offset >= length then 0
            else if offset + size >= 0x1_0000_0000_0000_0000 then size - 0x1_0000_0000_0000_0000
            else if size <= length - offset then size else length - offset
  {
    if offset < length && offset + size >= TWO_64 {
      assert (offset + size) % TWO_64 == offset + size - TWO_64;
    }
  }

  /** The promise is met exactly when `offset + size` does not wrap, or nothing was to be read; a sum
      that wraps makes the read return nothing. */
  lemma ShortReadExact(length: nat, size: nat, offset: nat)
    requires size < TWO_64 && length < TWO_63
    ensures PreadLength(length, size, offset) == ShortRead(length, size, offset) <==>
            offset >= length || offset + size < TWO_64
    ensures offset + size >= TWO_64 ==> PreadLength(length, size, offset) == 0
    ensures offset < length && offset + size < TWO_64 ==>
              var n, room := PreadLength(length, size, offset), 2097152 - offset % 2097152;
              && n <= size && n <= length - offset && n <= room
              && (n == size || n == length - offset || n == room)
  {
    if offset < length && offset + size >= TWO_64 {
      assert (offset + size) % TWO_64 == offset + size - TWO_64;
    }
  }

  /** Without wrapping, the chunked version returns a prefix of what the flat one returns: empty
      only together with it, and all of it exactly when no chunk boundary intervenes. */
  lemma PrefixOfFlat(length: nat, size: nat, offset: nat)
    requires size < TWO_64 && length < TWO_63 && offset + size < TWO_64
    ensures var n, flat := PreadLength(length, size, offset), FlatLength(length, size, offset);
            && n <= flat && (flat > 0 ==> offset + flat <= length)
            && (n == 0 <==> flat == 0)
            && (n == 0 <==> size == 0 || offset >= length)
            && (n == flat <==> offset % MAX_MMAP_SIZE + flat <= MAX_MMAP_SIZE)
  {
  }
}
