/** The tree of 1024-way tables that one open file keeps: what it means for tables in memory to
    represent a chunk map, what the (index-truncating) descent finds in them, and what the three
    elementary updates - wrapping the root, linking an empty table, storing a chunk - do to the
    map (lib/fileops_noposix.c, lines 248-326). */
module RadixIndex {
  import opened Basics
  import opened Capacity
  import opened CMemory

  const MAX_HEIGHT: nat := 4

  /** The place of a table: its level above the leaves, and the base-1024 digits that lead to it.
      Wrapping the root puts a zero digit in front, so it moves no table. */
  datatype Coord = Coord(level: nat, prefix: nat)

  /** The abstract state of one index: its height, its tables by place, and the chunk map. */
  datatype Index = Index(height: nat, at: map<Coord, nat>, chunks: map<nat, nat>)

  const NO_INDEX: Index := Index(0, map[], map[])

  function Parent(c: Coord): Coord {
    Coord(c.level + 1, c.prefix / FANOUT)
  }

  function Child(c: Coord, i: nat): Coord
    requires c.level > 0
  {
    Coord(c.level - 1, c.prefix * FANOUT + i)
  }

  /** The place at level `l` on the way to chunk `k`. */
  function Path(k: nat, l: nat): Coord {
    PowPositive(l + 1);
    Coord(l, k / Pow(l + 1))
  }

  /** Slot `i` of the table at `c`: a child table, a chunk's mapping, or 0. */
  function SlotValue(ix: Index, c: Coord, i: nat): nat {
    if c.level == 0 then
      var k := c.prefix * FANOUT + i;
      if k in ix.chunks then ix.chunks[k] else 0
    else if Child(c, i) in ix.at then ix.at[Child(c, i)]
    else 0
  }

  /** The tables form a tree: every table but the root hangs below another one, no address is used
      at two places, and every mapped chunk has its leaf. */
  ghost predicate Shape(ix: Index) {
    && ix.height <= MAX_HEIGHT
    && Coord(ix.height, 0) in ix.at
    && (forall c | c in ix.at :: c.level <= ix.height && (c.level == ix.height ==> c.prefix == 0))
    && (forall c | c in ix.at && c.level < ix.height :: Parent(c) in ix.at)
    && (forall c, d | c in ix.at && d in ix.at && ix.at[c] == ix.at[d] :: c == d)
    && (forall k | k in ix.chunks :: Coord(0, k / FANOUT) in ix.at && ix.chunks[k] != 0)
  }

  /** The words in memory are the ones the abstract index calls for. */
  ghost predicate Stores(m: Mem, ix: Index) {
    forall c | c in ix.at ::
      && ix.at[c] != 0 && ix.at[c] in m && |m[ix.at[c]]| == FANOUT
      && forall i: nat | i < FANOUT :: m[ix.at[c]][i] == SlotValue(ix, c, i)
  }

  ghost predicate Represents(m: Mem, root: nat, ix: Index) {
    Shape(ix) && ix.at[Coord(ix.height, 0)] == root && Stores(m, ix)
  }

  // ----- what the descent finds -----

  /** Outcome of the descent loop; `OutOfBounds` is a table index below zero. */
  datatype Lookup = Hit(addr: nat) | Miss | OutOfBounds

  /** The do-while descent, with the quotient narrowed to an `int` at every level. */
  function Walk(m: Mem, table: nat, height: nat, offset: nat): Lookup
    decreases height
  {
    PowPositive(height);
    var index := TruncInt(offset / Bytes(height));
    if table !in m || |m[table]| != FANOUT || index < 0 then OutOfBounds
    else if index >= FANOUT || m[table][index] == 0 then Miss
    else if height == 0 then Hit(m[table][index])
    else Walk(m, m[table][index], height - 1, offset % Bytes(height))
  }

  /** What a lookup of chunk `k` is meant to find. */
  function Expected(ix: Index, k: nat): Lookup {
    if k in ix.chunks then Hit(ix.chunks[k]) else Miss
  }

  lemma PathParent(k: nat, l: nat)
    ensures Parent(Path(k, l)) == Path(k, l + 1)
    ensures Pow(l) > 0
    ensures l > 0 ==> Child(Path(k, l), (k / Pow(l)) % FANOUT) == Path(k, l - 1)
  {
    PowPositive(l);
    PowPositive(l + 1);
    DivMul(k, Pow(l + 1), FANOUT);
    DivMul(k, Pow(l), FANOUT);
    assert Pow(l + 1) == Pow(l) * FANOUT && Pow(l + 2) == Pow(l + 1) * FANOUT;
  }

  lemma PathUp(ix: Index, k: nat, l: nat, top: nat)
    requires Shape(ix) && l <= top <= ix.height && Path(k, l) in ix.at
    ensures Path(k, top) in ix.at
    decreases top - l
  {
    if l < top {
      PathParent(k, l);
      PathUp(ix, k, l + 1, top);
    }
  }

  /** A mapped chunk has all its tables, and lies within the reach of the root. */
  lemma ChunkPath(ix: Index, k: nat, l: nat)
    requires Shape(ix) && k in ix.chunks && l <= ix.height
    ensures Path(k, l) in ix.at && k < Pow(ix.height + 1)
  {
    PowValues();
    assert Path(k, 0) == Coord(0, k / FANOUT);
    PathUp(ix, k, 0, l);
    PathUp(ix, k, 0, ix.height);
    PowPositive(ix.height + 1);
    QuotientPositive(k, Pow(ix.height + 1));
  }

  lemma SlotAt(m: Mem, root: nat, ix: Index, c: Coord, i: nat)
    requires Represents(m, root, ix) && c in ix.at && i < FANOUT
    ensures c.level <= MAX_HEIGHT && ix.at[c] in m && |m[ix.at[c]]| == FANOUT
    ensures m[ix.at[c]][i] == SlotValue(ix, c, i)
    ensures c.level > 0 ==>
              && SlotValue(ix, c, i) == (if Child(c, i) in ix.at then ix.at[Child(c, i)] else 0)
              && (Child(c, i) in ix.at ==> ix.at[Child(c, i)] != 0)
    ensures c.level == 0 ==>
              var k := c.prefix * FANOUT + i;
              && SlotValue(ix, c, i) == (if k in ix.chunks then ix.chunks[k] else 0)
              && (k in ix.chunks ==> ix.chunks[k] != 0)
  {
  }

  /** One round of the descent, unfolded. */
  lemma WalkStep(m: Mem, table: nat, h: nat, offset: nat)
    ensures Bytes(h) > 0
    ensures var index := TruncInt(offset / Bytes(h));
            Walk(m, table, h, offset) ==
            if table !in m || |m[table]| != FANOUT || index < 0 then OutOfBounds
            else if index >= FANOUT || m[table][index] == 0 then Miss
            else if h == 0 then Hit(m[table][index])
            else Walk(m, m[table][index], h - 1, offset % Bytes(h))
  {
    PowPositive(h);
  }

  /** The slot taken at level `h` on the way to `o`'s chunk, and where it leads. */
  lemma DigitOf(o: nat, h: nat) returns (digit: nat)
    ensures Bytes(h) > 0 && Bytes(h + 1) > 0 && digit < FANOUT && TruncInt(digit) == digit
    ensures var k, c := ChunkOf(o), Path(ChunkOf(o), h);
            && c.level == h
            && digit == (o % Bytes(h + 1)) / Bytes(h)
            && (o % Bytes(h + 1)) % Bytes(h) == o % Bytes(h)
            && (if h == 0 then c == Coord(0, k / FANOUT) && digit == k % FANOUT
                          && c.prefix * FANOUT + digit == k
                else Child(c, digit) == Path(k, h - 1))
  {
    var k := ChunkOf(o);
    PowPositive(h);
    DescendStep(o, h);
    digit := (k / Pow(h)) % FANOUT;
    TruncSmall(digit);
    PathParent(k, h);
    if h == 0 { PowValues(); }
  }

  lemma Constants()
    ensures FANOUT == 1024 && MAX_HEIGHT == 4
  {
  }

  /** Below the root no quotient can be truncated: the descent is exact. */
  lemma {:induction false} WalkBelow(m: Mem, root: nat, ix: Index, o: nat, l: nat)
    requires Represents(m, root, ix) && l <= ix.height && Path(ChunkOf(o), l) in ix.at
    ensures Bytes(l + 1) > 0
    ensures Walk(m, ix.at[Path(ChunkOf(o), l)], l, o % Bytes(l + 1)) == Expected(ix, ChunkOf(o))
    decreases l
  {
    hide *;
    Constants();
    var k, c := ChunkOf(o), Path(ChunkOf(o), l);
    var digit := DigitOf(o, l);
    WalkStep(m, ix.at[c], l, o % Bytes(l + 1));
    SlotAt(m, root, ix, c, digit);
    ExpectedAt(ix, k);
    if l > 0 {
      if Path(k, l - 1) in ix.at {
        WalkBelow(m, root, ix, o, l - 1);
      } else if k in ix.chunks {
        ShapeOf(m, root, ix);
        ChunkPath(ix, k, l - 1);
      }
    }
  }

  lemma ShapeOf(m: Mem, root: nat, ix: Index)
    requires Represents(m, root, ix)
    ensures Shape(ix)
  {
  }

  lemma ExpectedAt(ix: Index, k: nat)
    ensures Expected(ix, k) == if k in ix.chunks then Hit(ix.chunks[k]) else Miss
  {
  }

  /** The chunk a lookup of `o` is answered from: with a single-table tree the truncated quotient
      is taken for the chunk number whenever it lands on an occupied slot. */
  function Served(ix: Index, o: nat): nat {
    var t := TruncInt(ChunkOf(o));
    if ix.height == 0 && 0 <= t < FANOUT && t in ix.chunks then t else ChunkOf(o)
  }

  /** The lookups that truncation spoils. */
  predicate Spoiled(ix: Index, o: nat) {
    PowPositive(ix.height);
    var t := TruncInt(o / Bytes(ix.height));
    || t < 0
    || (ix.height == 0 && t < FANOUT <= ChunkOf(o) && t in ix.chunks)
  }

  lemma WalkTop(m: Mem, root: nat, ix: Index, o: nat)
    requires Represents(m, root, ix) && o < TWO_63
    ensures Bytes(ix.height) > 0
    ensures Walk(m, root, ix.height, o) ==
            if TruncInt(o / Bytes(ix.height)) < 0 then OutOfBounds else Expected(ix, Served(ix, o))
  {
    var h, k := ix.height, ChunkOf(o);
    PowValues();
    PowPositive(h);
    DescendStep(o, h);
    var q := o / Bytes(h);
    QuotientPositive(o, Bytes(h + 1));
    QuotientPositive(k, Pow(h + 1));
    if q < FANOUT {
      TruncSmall(q);
      assert o / Bytes(h + 1) == 0 && k / Pow(h + 1) == 0 by { DivMul(o, Bytes(h), FANOUT); }
      DivUnique(o, Bytes(h + 1), 0, o);
      assert Path(k, h) == Coord(h, 0);
      WalkBelow(m, root, ix, o, h);
    } else {
      assert k !in ix.chunks by { if k in ix.chunks { ChunkPath(ix, k, h); } }
      var t := TruncInt(q);
      if 0 <= t < FANOUT {
        TopSlot(o, h);
        assert m[root][t] == SlotValue(ix, Coord(0, 0), t);
      }
    }
  }

  /** Only in a single-table tree can a quotient of 1024 or more be truncated to a slot number. */
  lemma TopSlot(o: nat, h: nat)
    requires o < TWO_63 && h <= MAX_HEIGHT && Bytes(h) > 0
    requires o / Bytes(h) >= FANOUT && 0 <= TruncInt(o / Bytes(h)) < FANOUT
    ensures h == 0
  {
    PowValues();
  }

  /** The descent agrees with the chunk map at every offset that truncation does not spoil, and at
      no other. */
  lemma WalkExact(m: Mem, root: nat, ix: Index, o: nat)
    requires Represents(m, root, ix) && o < TWO_63
    ensures Walk(m, root, ix.height, o) == Expected(ix, ChunkOf(o)) <==> !Spoiled(ix, o)
  {
    WalkTop(m, root, ix, o);
    var h, k := ix.height, ChunkOf(o);
    PowValues();
    PowPositive(h);
    if k in ix.chunks { ChunkPath(ix, k, h); }
    hide Walk, Represents, Shape, Stores, Pow;
    assert h == 0 ==> o / Bytes(h) == k;
  }

  /** Below 2^52 bytes nothing is ever truncated. */
  lemma SmallOffsetsExact(ix: Index, o: nat)
    requires o < TWO_52 && ix.height <= MAX_HEIGHT
    ensures !Spoiled(ix, o) && Served(ix, o) == ChunkOf(o)
    ensures Bytes(ix.height) > 0 && TruncInt(o / Bytes(ix.height)) >= 0
  {
    PowValues();
    PowPositive(ix.height);
    DescendStep(o, ix.height);
    DivMul(o, MAX_MMAP_SIZE, Pow(ix.height));
    assert ChunkOf(o) < TWO_31;
    QuotientAtMost(ChunkOf(o), Pow(ix.height));
    TruncSmall(o / Bytes(ix.height));
    TruncSmall(ChunkOf(o));
  }

  lemma QuotientAtMost(a: nat, d: nat)
    requires d > 0
    ensures a / d <= a
  {
    Product(a / d, d - 1);
    assert a == (a / d) * (d - 1) + a / d + a % d;
  }

  lemma Product(a: nat, b: nat)
    ensures a * b >= 0
  {
  }

  /** The truncation at work: with chunk 0 mapped and nothing else, byte 2^53 is answered from
      chunk 0 although its own chunk was never mapped. */
  lemma TruncationWitness(m: Mem, root: nat, base: nat)
    requires base != 0
    requires root != 0 && root in m && m[root] == With(Zeros(), 0, base)
    ensures var ix := Index(0, map[Coord(0, 0) := root], map[0 := base]);
            var o := 2 * TWO_52;
            && Represents(m, root, ix)
            && Walk(m, root, 0, o) == Hit(base)
            && Expected(ix, ChunkOf(o)) == Miss
  {
    var ix := Index(0, map[Coord(0, 0) := root], map[0 := base]);
    var o := 2 * TWO_52;
    PowValues();
    assert Represents(m, root, ix);
    assert ChunkOf(o) == TWO_32;
    WalkTop(m, root, ix, o);
  }

  // ----- the elementary updates -----

  /** Tables outside the index do not matter. */
  lemma Frame(m: Mem, m': Mem, root: nat, ix: Index)
    requires Represents(m, root, ix)
    requires forall c | c in ix.at :: ix.at[c] in m' && m'[ix.at[c]] == m[ix.at[c]]
    ensures Represents(m', root, ix)
  {
  }

  /** A cleared table is an empty index, whatever height the file has. */
  lemma EmptyTable(m: Mem, root: nat, h: nat)
    requires root != 0 && root in m && m[root] == Zeros() && h <= MAX_HEIGHT
    ensures Represents(m, root, Index(h, map[Coord(h, 0) := root], map[]))
  {
  }

  function Grown(ix: Index, root': nat): Index {
    Index(ix.height + 1, ix.at[Coord(ix.height + 1, 0) := root'], ix.chunks)
  }

  /** A new root with the old one in slot 0 represents the same chunk map. */
  lemma GrowStep(m: Mem, root: nat, ix: Index, m': Mem, root': nat)
    requires Represents(m, root, ix) && ix.height < MAX_HEIGHT
    requires root' != 0 && root' !in m
    requires m' == m[root' := With(Zeros(), 0, root)]
    ensures Coord(ix.height + 1, 0) !in ix.at && Represents(m', root', Grown(ix, root'))
  {
    GrownShape(ix, root');
    var ix' := Grown(ix, root');
    forall c | c in ix'.at
      ensures ix'.at[c] != 0 && ix'.at[c] in m' && |m'[ix'.at[c]]| == FANOUT
      ensures forall i: nat | i < FANOUT :: m'[ix'.at[c]][i] == SlotValue(ix', c, i)
    {
      forall i: nat | i < FANOUT ensures m'[ix'.at[c]][i] == SlotValue(ix', c, i) {
        GrownSlot(ix, root', c, i);
      }
    }
  }

  lemma GrownShape(ix: Index, root': nat)
    requires Shape(ix) && ix.height < MAX_HEIGHT
    requires forall c | c in ix.at :: ix.at[c] != root'
    ensures Coord(ix.height + 1, 0) !in ix.at && Shape(Grown(ix, root'))
  {
    var ix' := Grown(ix, root');
    forall c | c in ix'.at && c.level < ix'.height ensures Parent(c) in ix'.at {
      if c.level == ix.height {
        assert c == Coord(ix.height, 0) && Parent(c) == Coord(ix.height + 1, 0);
      }
    }
  }

  lemma GrownSlot(ix: Index, root': nat, c: Coord, i: nat)
    requires Shape(ix) && c in Grown(ix, root').at && i < FANOUT
    ensures SlotValue(Grown(ix, root'), c, i) ==
            if c != Coord(ix.height + 1, 0) then SlotValue(ix, c, i)
            else if i == 0 then ix.at[Coord(ix.height, 0)] else 0
  {
    if c == Coord(ix.height + 1, 0) {
      assert Child(c, i) == Coord(ix.height, i);
    }
  }

  function Linked(ix: Index, d: Coord, a: nat): Index {
    ix.(at := ix.at[d := a])
  }

  /** Hanging a cleared table below an empty slot leaves the chunk map alone. */
  lemma LinkStep(m: Mem, root: nat, ix: Index, m': Mem, c: Coord, i: nat, a: nat)
    requires Represents(m, root, ix)
    requires c in ix.at && c.level > 0 && i < FANOUT && m[ix.at[c]][i] == 0
    requires a != 0 && a !in m
    requires m' == m[ix.at[c] := With(m[ix.at[c]], i, a)][a := Zeros()]
    ensures Child(c, i) !in ix.at && Represents(m', root, Linked(ix, Child(c, i), a))
  {
    var d := Child(c, i);
    var ix' := Linked(ix, d, a);
    assert m[ix.at[c]][i] == SlotValue(ix, c, i);
    assert d !in ix.at;
    assert Parent(d) == c;
    forall e | e in ix'.at
      ensures ix'.at[e] != 0 && ix'.at[e] in m' && |m'[ix'.at[e]]| == FANOUT
      ensures forall j: nat | j < FANOUT :: m'[ix'.at[e]][j] == SlotValue(ix', e, j)
    {
      forall j: nat | j < FANOUT ensures m'[ix'.at[e]][j] == SlotValue(ix', e, j) {
        LinkedSlot(m, root, ix, c, i, a, e, j);
      }
    }
  }

  lemma LinkedSlot(m: Mem, root: nat, ix: Index, c: Coord, i: nat, a: nat, e: Coord, j: nat)
    requires Represents(m, root, ix)
    requires c in ix.at && c.level > 0 && i < FANOUT && j < FANOUT && Child(c, i) !in ix.at
    requires e in ix.at || e == Child(c, i)
    ensures SlotValue(Linked(ix, Child(c, i), a), e, j) ==
            if e == Child(c, i) then 0 else if e == c && j == i then a else SlotValue(ix, e, j)
  {
    var d := Child(c, i);
    if e == d {
      if d.level == 0 {
        var k := d.prefix * FANOUT + j;
        assert k / FANOUT == d.prefix;
      } else {
        assert Parent(Child(d, j)) == d;
      }
    } else if e.level > 0 {
      assert Parent(Child(e, j)) == e && Parent(d) == c;
    }
  }

  function Put(ix: Index, k: nat, base: nat): Index {
    ix.(chunks := ix.chunks[k := base])
  }

  /** Storing a mapping in a leaf adds that chunk to the map. */
  lemma PutStep(m: Mem, root: nat, ix: Index, m': Mem, k: nat, base: nat)
    requires Represents(m, root, ix) && Coord(0, k / FANOUT) in ix.at && base != 0
    requires var leaf := ix.at[Coord(0, k / FANOUT)];
             m' == m[leaf := With(m[leaf], k % FANOUT, base)]
    ensures Represents(m', root, Put(ix, k, base))
  {
    var ix' := Put(ix, k, base);
    forall c | c in ix'.at
      ensures ix'.at[c] != 0 && ix'.at[c] in m' && |m'[ix'.at[c]]| == FANOUT
      ensures forall j: nat | j < FANOUT :: m'[ix'.at[c]][j] == SlotValue(ix', c, j)
    {
      forall j: nat | j < FANOUT ensures m'[ix'.at[c]][j] == SlotValue(ix', c, j) {
        PutSlot(ix, k, base, c, j);
      }
    }
  }

  lemma PutSlot(ix: Index, k: nat, base: nat, c: Coord, j: nat)
    requires j < FANOUT
    ensures SlotValue(Put(ix, k, base), c, j) ==
            if c == Coord(0, k / FANOUT) && j == k % FANOUT then base else SlotValue(ix, c, j)
  {
    var k' := c.prefix * FANOUT + j;
    assert k' / FANOUT == c.prefix && k' % FANOUT == j;
  }
}
