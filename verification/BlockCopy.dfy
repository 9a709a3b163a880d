/** The blocked copy mmx2_memcpy (memcpy.h, lines 15-89), with the destination's address kept for
    its alignment. `to` and `from` are the C pointers, as offsets into the two buffers. */
module BlockCopy {
  import opened Basics

  const MIN_LEN: nat := 64
  const REG_SIZE: nat := 8

  /** Bytes up to the next 8-byte boundary of the destination. */
  function Delta(address: nat): nat {
    if address % REG_SIZE == 0 then 0 else REG_SIZE - address % REG_SIZE
  }

  /** How many bytes arrive: the head is copied without advancing the pointers, so as many are
      missing at the end. */
  function Copied(address: nat, len: nat): (n: nat)
    ensures n <= len
  {
    if len < MIN_LEN then len else len - Delta(address)
  }

  /** memcpy(to, from, n), at offset `at` in both buffers. */
  method Memcpy(dst: array<Byte>, src: array<Byte>, at: nat, n: nat)
    requires dst != src && at + n <= dst.Length && at + n <= src.Length
    modifies dst
    ensures forall b: nat | b < dst.Length ::
              dst[b] == if at <= b < at + n then src[b] else old(dst[b])
  {
    var i: nat := 0;
    while i < n
      invariant i <= n
      invariant forall b: nat | b < dst.Length ::
                  dst[b] == if at <= b < at + i then src[b] else old(dst[b])
    {
      dst[at + i] := src[at + i];
      i := i + 1;
    }
  }

  /** mmx2_memcpy of `len` bytes to the start of `dst`, which lies at `address`. */
  method Mmx2Memcpy(dst: array<Byte>, src: array<Byte>, address: nat, len: nat)
    requires dst != src && len <= dst.Length && len <= src.Length
    modifies dst
    ensures forall b: nat | b < dst.Length ::
              dst[b] == if b < Copied(address, len) then src[b] else old(dst[b])
  {
    var to, rest := 0, len;
    if rest >= MIN_LEN {
      var delta := address % REG_SIZE;
      if delta != 0 {
        delta := REG_SIZE - delta;
        rest := rest - delta;
        Memcpy(dst, src, to, delta);
      }
      ghost var total := rest;
      var i := rest / 64;
      rest := rest % 64;
      while i > 0
        invariant 0 <= i && 0 <= to && to + 64 * i + rest == total == Copied(address, len)
        invariant 0 <= rest < 64 && total >= 56
        invariant forall b: nat | b < dst.Length ::
                    dst[b] == if b < to || b < Delta(address) then src[b] else old(dst[b])
      {
        Memcpy(dst, src, to, 64);
        to := to + 64;
        i := i - 1;
      }
    }
    if rest != 0 {
      Memcpy(dst, src, to, rest);
    }
  }

  /** The destination's first |src| bytes after `n` bytes have arrived. */
  function Result(before: seq<Byte>, src: seq<Byte>, n: nat): seq<Byte>
    requires n <= |src| == |before|
  {
    src[..n] + before[n..]
  }

  /** The copy is memcpy for all contents exactly when the destination is 8-aligned or the length is
      below 64; otherwise as many of the last bytes are missed as the destination is short of an 8-byte
      boundary. */
  lemma CompleteExactly(address: nat, len: nat)
    ensures Copied(address, len) == len <==> address % REG_SIZE == 0 || len < MIN_LEN
    ensures len < 64 ==> Copied(address, len) == len
    ensures var missed := len - Copied(address, len); len >= 64 ==> missed < 8 && (address + missed) % 8 == 0
    ensures (forall before: seq<Byte>, src: seq<Byte> | |before| == |src| == len ::
               Result(before, src, Copied(address, len)) == src)
            <==> address % REG_SIZE == 0 || len < MIN_LEN
  {
    var n := Copied(address, len);
    if n < len {
      var zeros: seq<Byte> := seq(len, _ => 0);
      var ones: seq<Byte> := seq(len, _ => 1);
      assert Result(zeros, ones, n)[n] == 0;
    }
  }
}
