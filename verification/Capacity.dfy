/** Mixed-radix arithmetic of the chunk index: table capacities, tree heights and
    the digits of a file offset (lib/fileops_noposix.c, lines 223-246). */
module Capacity {
  import opened Basics

  /** Bytes of file covered by one mapping. */
  const MAX_MMAP_SIZE: nat := 2097152

  const TWO_31: nat := 0x8000_0000
  const TWO_52: nat := 0x10_0000_0000_0000
  const TWO_63: nat := 0x8000_0000_0000_0000
  const TWO_64: nat := 0x1_0000_0000_0000_0000

  /** Number of chunks below one slot of a table at level `h`. */
  function Pow(h: nat): nat {
    if h == 0 then 1 else FANOUT * Pow(h - 1)
  }

  /** Number of bytes below one slot of a table at level `h`. */
  function Bytes(h: nat): nat {
    MAX_MMAP_SIZE * Pow(h)
  }

  /** Conversion of an unsigned 64-bit quotient to a C `int`. */
  function TruncInt(x: nat): int {
    var w := x % TWO_32;
    if w < TWO_31 then w else w - TWO_32
  }

  function ChunkOf(offset: nat): nat {
    offset / MAX_MMAP_SIZE
  }

  function AlignDown(offset: nat): nat {
    offset - offset % MAX_MMAP_SIZE
  }

  lemma PowPositive(h: nat)
    ensures Pow(h) > 0
  {
  }

  lemma PowValues()
    ensures Pow(0) == 1 && Pow(1) == 1024 && Pow(2) == 0x10_0000
    ensures Pow(3) == 0x4000_0000 && Pow(4) == 0x100_0000_0000
    ensures Pow(5) == 0x4_0000_0000_0000
  {
    assert Pow(1) == 1024 * Pow(0);
    assert Pow(2) == 1024 * Pow(1);
    assert Pow(3) == 1024 * Pow(2);
    assert Pow(4) == 1024 * Pow(3);
    assert Pow(5) == 1024 * Pow(4);
  }

  /** Division with remainder is unique. */
  lemma DivUnique(a: nat, d: nat, q: nat, r: nat)
    requires d > 0 && r < d && a == q * d + r
    ensures a / d == q && a % d == r
  {
    var q', r' := a / d, a % d;
    assert a == q' * d + r';
    if q < q' {
      Apart(d, q, q');
    } else if q' < q {
      Apart(d, q', q);
    }
  }

  /** Dividing by a product is dividing twice, and the digit between the two divisors can be
      read off before or after the outer remainder is taken. */
  lemma DivMul(o: nat, c: nat, n: nat)
    requires c > 0 && n > 0
    ensures c * n > 0
    ensures o / (c * n) == (o / c) / n
    ensures (o % (c * n)) / c == (o / c) % n
    ensures (o % (c * n)) % c == o % c
  {
    DivMulParts(o, c, n, o / c, o % c, (o / c) / n, (o / c) % n);
  }

  lemma DivMulParts(o: nat, c: nat, n: nat, q: nat, r: nat, q2: nat, r2: nat)
    requires o == q * c + r && r < c
    requires q == q2 * n + r2 && r2 < n
    ensures c * n > 0 && o / (c * n) == q2 && o % (c * n) == r2 * c + r
    ensures (r2 * c + r) / c == r2 && (r2 * c + r) % c == r
  {
    Regroup(q2, n, r2, c);
    Apart(c, r2, n);
    var d, low := c * n, r2 * c;
    assert c * r2 == low;
    DivUnique(o, d, q2, low + r);
    DivUnique(low + r, c, r2, r);
  }

  lemma Regroup(a: nat, n: nat, b: nat, c: nat)
    ensures (a * n + b) * c == a * (c * n) + b * c
  {
    assert (a * n + b) * c == (a * n) * c + b * c;
    assert (a * n) * c == a * (n * c);
  }

  /** One step of the descent, in terms of the chunk number: the slot chosen at level `h` is the
      h-th base-1024 digit of the chunk, and the remainder keeps all lower digits. */
  lemma DescendStep(o: nat, h: nat)
    ensures Bytes(h) > 0 && Bytes(h + 1) == Bytes(h) * FANOUT
    ensures (o % Bytes(h + 1)) / Bytes(h) == (ChunkOf(o) / Pow(h)) % FANOUT
    ensures (o % Bytes(h + 1)) % Bytes(h) == o % Bytes(h)
    ensures o / Bytes(h) == ChunkOf(o) / Pow(h)
    ensures ChunkOf(o) / Pow(h + 1) == (ChunkOf(o) / Pow(h)) / FANOUT
  {
    PowPositive(h);
    assert Pow(h + 1) == Pow(h) * FANOUT;
    assert Bytes(h + 1) == Bytes(h) * FANOUT;
    DivMul(o, MAX_MMAP_SIZE, Pow(h));
    DivMul(o, Bytes(h), FANOUT);
    DivMul(ChunkOf(o), Pow(h), FANOUT);
  }

  /** What a C `int` makes of a quotient: the one number in its range that is congruent modulo 2^32. */
  lemma TruncCongruent(x: nat)
    ensures -0x8000_0000 <= TruncInt(x) < 0x8000_0000 && (x - TruncInt(x)) % 0x1_0000_0000 == 0
  {
  }

  lemma TruncSmall(x: nat)
    requires x < TWO_31
    ensures TruncInt(x) == x
  {
  }

  /** The height `calculate_new_height` looks for: the least one whose tree covers `offset`. */
  ghost predicate IsLeastHeight(offset: nat, h: nat) {
    && offset < Bytes(h + 1)
    && forall g: nat | 1 <= g <= h :: Bytes(g) <= offset
  }

  lemma BytesMonotone(g: nat, h: nat)
    requires g <= h
    ensures Bytes(g) <= Bytes(h)
    decreases h - g
  {
    if g < h {
      PowPositive(g);
      BytesMonotone(g + 1, h);
    }
  }

  /** Every 63-bit offset fits in a tree of height at most 4, so no capacity that the descent or
      the growth computes exceeds 64 bits. */
  lemma HeightBound(offset: nat, h: nat)
    requires offset < TWO_63 && IsLeastHeight(offset, h)
    ensures h <= 4
    ensures forall g: nat | g <= h :: Bytes(g) < TWO_64
  {
    PowValues();
    assert Bytes(5) > TWO_63;
    forall g: nat | g <= h ensures Bytes(g) < TWO_64 {
      BytesMonotone(g, 4);
    }
  }

  /** calculate_capacity: the product is taken modulo 2^64 as in C. It is the true capacity
      exactly for heights up to 4. */
  method CalculateCapacity(height: nat) returns (capacity: nat)
    ensures capacity == Bytes(height) % TWO_64
    ensures capacity == Bytes(height) <==> height <= 4
  {
    capacity := MAX_MMAP_SIZE;
    var h := height;
    while h != 0
      invariant 0 <= h <= height
      invariant capacity == Bytes(height - h) % TWO_64
      decreases h
    {
      ghost var done := height - h;
      assert Bytes(done + 1) == Bytes(done) * 1024;
      WrapTimesFanout(Bytes(done));
      capacity := capacity * 1024 % TWO_64;
      h := h - 1;
    }
    CapacityFits(height);
  }

  lemma WrapTimesFanout(a: nat)
    ensures (a * 1024) % TWO_64 == ((a % TWO_64) * 1024) % TWO_64
  {
    var q, r := a / TWO_64, a % TWO_64;
    var q2, r2 := (r * 1024) / TWO_64, (r * 1024) % TWO_64;
    assert a * 1024 == (q * 1024 + q2) * TWO_64 + r2;
    DivUnique(a * 1024, TWO_64, q * 1024 + q2, r2);
  }

  lemma CapacityFits(height: nat)
    ensures Bytes(height) % TWO_64 == Bytes(height) <==> height <= 4
  {
    PowValues();
    if height <= 4 {
      BytesMonotone(height, 4);
    } else {
      BytesMonotone(5, height);
    }
  }

  /** calculate_new_height, for the non-negative offsets that reach it. */
  method CalculateNewHeight(offset: nat) returns (height: nat)
    ensures IsLeastHeight(offset, height)
    ensures offset < TWO_63 ==> height <= 4
  {
    height := 0;
    PowValues();
    var temp := offset / (1024 * MAX_MMAP_SIZE);
    assert Bytes(1) == 1024 * MAX_MMAP_SIZE;
    while temp != 0
      invariant Bytes(height + 1) > 0
      invariant temp == offset / Bytes(height + 1)
      invariant forall g: nat | 1 <= g <= height :: Bytes(g) <= offset
      decreases temp
    {
      DescendStep(offset, height + 1);
      DivMul(offset, Bytes(height + 1), FANOUT);
      QuotientPositive(offset, Bytes(height + 1));
      temp := temp / 1024;
      height := height + 1;
    }
    QuotientPositive(offset, Bytes(height + 1));
    if offset < TWO_63 { HeightBound(offset, height); }
  }

  lemma QuotientPositive(a: nat, d: nat)
    requires d > 0
    ensures a / d == 0 <==> a < d
  {
    if a < d { DivUnique(a, d, 0, a); }
  }
}
