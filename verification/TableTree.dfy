/** Growing, filling and freeing the table tree of one file in place
    (lib/fileops_noposix.c, lines 181-221 and 261-326). */
module TableTree {
  import opened Basics
  import opened Capacity
  import opened CMemory
  import opened RadixIndex

  ghost predicate Holds(ix: Index, a: nat) {
    exists c :: c in ix.at && ix.at[c] == a
  }

  /** From (m0, ix0) to (m, ix) the index kept all its tables, gained only newly allocated ones,
      and no other table in memory was touched. */
  ghost predicate Extends(m0: Mem, ix0: Index, m: Mem, ix: Index) {
    && ix0.height <= ix.height
    && (forall c | c in ix0.at :: c in ix.at && ix.at[c] == ix0.at[c])
    && (forall c | c in ix.at && c !in ix0.at :: ix.at[c] !in m0)
    && (forall a | a in m0 :: a in m && (Holds(ix0, a) || m[a] == m0[a]))
    && (forall a | a in m :: a in m0 || Holds(ix, a))
  }

  lemma InBounds(m: Mem, root: nat, ix: Index, o: nat)
    requires Represents(m, root, ix) && o < TWO_63
    requires Bytes(ix.height) > 0 && TruncInt(o / Bytes(ix.height)) >= 0
    ensures ix.height <= 4 && !Walk(m, root, ix.height, o).OutOfBounds?
  {
    WalkTop(m, root, ix, o);
  }

  /** The only leaf the index may have gained is the one of chunk `k`. */
  ghost predicate LeavesWithin(ix0: Index, ix: Index, k: nat) {
    forall c | c in ix.at && c.level == 0 :: c in ix0.at || c == Path(k, 0)
  }

  lemma LeavesRefl(ix: Index, k: nat)
    ensures LeavesWithin(ix, ix, k)
  {
  }

  lemma LeavesGrow(ix0: Index, ix: Index, root: nat, k: nat)
    requires LeavesWithin(ix0, ix, k)
    ensures LeavesWithin(ix0, Grown(ix, root), k)
  {
  }

  lemma LeavesLink(ix0: Index, ix: Index, k: nat, h: nat, a: nat)
    requires LeavesWithin(ix0, ix, k)
    ensures LeavesWithin(ix0, Linked(ix, Path(k, h), a), k)
  {
  }

  lemma LeavesPut(ix0: Index, ix: Index, k: nat, base: nat)
    requires LeavesWithin(ix0, ix, k)
    ensures LeavesWithin(ix0, Put(ix, k, base), k)
  {
  }

  lemma LeavesTransitive(ix0: Index, ix1: Index, ix2: Index, k: nat)
    requires LeavesWithin(ix0, ix1, k) && LeavesWithin(ix1, ix2, k)
    ensures LeavesWithin(ix0, ix2, k)
  {
  }

  /** The descent loop: the method follows `Walk` exactly. */
  method Descend(heap: CHeap, root: nat, height: nat, offset: nat, ghost ix: Index)
    returns (found: bool, addr: nat)
    requires heap.Valid() && Represents(heap.mem, root, ix) && height == ix.height
    requires offset < TWO_63
    requires Bytes(height) > 0 && TruncInt(offset / Bytes(height)) >= 0
    ensures Walk(heap.mem, root, height, offset) == if found then Hit(addr) else Miss
  {
    hide *;
    Constants();
    InBounds(heap.mem, root, ix, offset);
    var table: nat, h: nat, rest: nat := root, height, offset;
    while true
      invariant h <= height <= 4
      invariant Walk(heap.mem, table, h, rest) == Walk(heap.mem, root, height, offset)
      invariant !Walk(heap.mem, table, h, rest).OutOfBounds?
      decreases h
    {
      WalkStep(heap.mem, table, h, rest);
      var capacity := CalculateCapacity(h);
      var index := TruncInt(rest / capacity);
      if index >= FANOUT { return false, 0; }
      var word := heap.Load(table, index);
      if word == 0 { return false, 0; }
      if h == 0 { return true, word; }
      table, rest, h := word, rest % capacity, h - 1;
    }
  }

  /** A fresh root whose slot 0 is the old root. */
  method NewRoot(heap: CHeap, oldRoot: nat) returns (a: nat)
    requires heap.Valid()
    modifies heap.repr
    ensures heap.Valid() && fresh(heap.repr - old(heap.repr))
    ensures a != 0 && a !in old(heap.mem)
    ensures heap.mem == old(heap.mem)[a := With(Zeros(), 0, oldRoot)]
  {
    hide CHeap.Valid;
    a := heap.Malloc();
    heap.ZeroTable(a);
    heap.Store(a, 0, oldRoot);
  }

  /** A fresh cleared table, linked from slot `i` of `table` before it is cleared. */
  method NewTable(heap: CHeap, table: nat, i: nat) returns (a: nat)
    requires heap.Valid() && table in heap.mem && i < FANOUT && |heap.mem[table]| == FANOUT
    modifies heap.repr
    ensures heap.Valid() && fresh(heap.repr - old(heap.repr))
    ensures a != 0 && a !in old(heap.mem)
    ensures heap.mem == old(heap.mem)[table := With(old(heap.mem)[table], i, a)][a := Zeros()]
  {
    hide CHeap.Valid;
    ghost var m := heap.mem;
    a := heap.Malloc();
    ghost var garbage := heap.mem[a];
    assert heap.mem[table] == m[table];
    heap.Store(table, i, a);
    heap.ZeroTable(a);
    Overwritten(m, a, garbage, table, With(m[table], i, a), Zeros());
  }

  lemma Overwritten(m: Mem, a: nat, x: seq<nat>, b: nat, y: seq<nat>, z: seq<nat>)
    requires a != b
    ensures m[a := x][b := y][a := z] == m[b := y][a := z]
  {
  }

  /** The growth loop: roots are wrapped until the tree covers `offset`; the chunk map stays. */
  method Grow(heap: CHeap, root: nat, height: nat, offset: nat, ghost ix: Index)
    returns (root': nat, height': nat, ghost ix': Index)
    requires heap.Valid() && Represents(heap.mem, root, ix) && height == ix.height
    requires offset < TWO_63
    modifies heap.repr
    ensures heap.Valid() && fresh(heap.repr - old(heap.repr))
    ensures Represents(heap.mem, root', ix') && height' == ix'.height
    ensures Extends(old(heap.mem), ix, heap.mem, ix') && ix'.chunks == ix.chunks
    ensures height' >= height && (height' > height ==> IsLeastHeight(offset, height'))
    ensures offset < Bytes(height' + 1) && LeavesWithin(ix, ix', ChunkOf(offset))
  {
    hide *;
    Constants();
    LeavesRefl(ix, ChunkOf(offset));
    var newHeight := CalculateNewHeight(offset);
    root', height', ix' := root, height, ix;
    ExtendsRefl(heap.mem, ix);
    while height' < newHeight
      invariant heap.Valid() && fresh(heap.repr - old(heap.repr))
      invariant Represents(heap.mem, root', ix') && height' == ix'.height
      invariant Extends(old(heap.mem), ix, heap.mem, ix') && ix'.chunks == ix.chunks
      invariant height <= height' && (height' > height ==> height' <= newHeight)
      invariant LeavesWithin(ix, ix', ChunkOf(offset))
      decreases newHeight - height'
    {
      ghost var m: Mem := heap.mem;
      var oldRoot := root';
      root' := NewRoot(heap, oldRoot);
      GrowStep(m, oldRoot, ix', heap.mem, root');
      ExtendsGrow(old(heap.mem), ix, m, oldRoot, ix', heap.mem, root');
      LeavesGrow(ix, ix', root', ChunkOf(offset));
      ix' := Grown(ix', root');
      height' := height' + 1;
    }
    Covered(offset, newHeight, height');
  }

  lemma Covered(offset: nat, needed: nat, h: nat)
    requires IsLeastHeight(offset, needed) && needed <= h
    ensures offset < Bytes(h + 1)
  {
    BytesMonotone(needed + 1, h + 1);
  }

  /** The insertion loop: chunk `ChunkOf(offset)` becomes `base`, linking cleared tables on the way
      down, and nothing else changes in the chunk map. */
  method Fill(heap: CHeap, root: nat, height: nat, offset: nat, base: nat, ghost ix: Index)
    returns (ghost ix': Index)
    requires heap.Valid() && Represents(heap.mem, root, ix) && height == ix.height
    requires offset < Bytes(height + 1) && base != 0
    modifies heap.repr
    ensures heap.Valid() && fresh(heap.repr - old(heap.repr))
    ensures Represents(heap.mem, root, ix') && ix'.height == height
    ensures Extends(old(heap.mem), ix, heap.mem, ix')
    ensures ix'.chunks == ix.chunks[ChunkOf(offset) := base]
    ensures LeavesWithin(ix, ix', ChunkOf(offset))
  {
    hide *;
    Constants();
    ix' := ix;
    LeavesRefl(ix, ChunkOf(offset));
    ExtendsRefl(heap.mem, ix);
    var table: nat, h: nat, rest: nat := root, height, AlignDown(offset);
    ghost var k := ChunkOf(offset);
    StartOfPath(offset, heap.mem, root, ix);
    while true
      invariant heap.Valid() && fresh(heap.repr - old(heap.repr))
      invariant Represents(heap.mem, root, ix') && ix'.height == height
      invariant Extends(old(heap.mem), ix, heap.mem, ix') && ix'.chunks == ix.chunks
      invariant LeavesWithin(ix, ix', k)
      invariant h <= height && Path(k, h) in ix'.at && table == ix'.at[Path(k, h)]
      invariant Bytes(h + 1) > 0 && rest == AlignDown(offset) % Bytes(h + 1)
      decreases h
    {
      ghost var digit := InsertDigit(offset, h);
      SlotAt(heap.mem, root, ix', Path(k, h), digit);
      var capacity := CalculateCapacity(h);
      var index: nat := rest / capacity;
      ghost var m: Mem := heap.mem;
      if h == 0 {
        heap.Store(table, index, base);
        PutStep(m, root, ix', heap.mem, k, base);
        ExtendsPut(old(heap.mem), ix, m, ix', heap.mem, k, base);
        LeavesPut(ix, ix', k, base);
        ix' := Put(ix', k, base);
        return;
      }
      var word: nat := heap.Load(table, index);
      if word == 0 {
        word := NewTable(heap, table, index);
        LinkStep(m, root, ix', heap.mem, Path(k, h), index, word);
        ExtendsLink(old(heap.mem), ix, m, ix', heap.mem, Path(k, h), index, word);
        LeavesLink(ix, ix', k, h - 1, word);
        ix' := Linked(ix', Child(Path(k, h), index), word);
      }
      table, rest, h := word, rest % capacity, h - 1;
    }
  }

  lemma InsertDigit(offset: nat, h: nat) returns (index: nat)
    ensures Bytes(h) > 0 && Bytes(h + 1) > 0 && index < FANOUT
    ensures var k, o, c := ChunkOf(offset), AlignDown(offset), Path(ChunkOf(offset), h);
            && c.level == h
            && index == (o % Bytes(h + 1)) / Bytes(h)
            && (o % Bytes(h + 1)) % Bytes(h) == o % Bytes(h)
            && (if h == 0 then c == Coord(0, k / FANOUT) && index == k % FANOUT
                else Child(c, index) == Path(k, h - 1))
  {
    assert ChunkOf(AlignDown(offset)) == ChunkOf(offset);
    hide Path, Pow, Bytes;
    index := DigitOf(AlignDown(offset), h);
  }

  lemma StartOfPath(offset: nat, m: Mem, root: nat, ix: Index)
    requires Represents(m, root, ix) && offset < Bytes(ix.height + 1)
    ensures var h, k, o := ix.height, ChunkOf(offset), AlignDown(offset);
            && Path(k, h) in ix.at && ix.at[Path(k, h)] == root
            && Bytes(h + 1) > 0 && o == o % Bytes(h + 1)
  {
    var h := ix.height;
    var o := AlignDown(offset);
    assert ChunkOf(o) == ChunkOf(offset);
    PowPositive(h + 1);
    DivMul(o, MAX_MMAP_SIZE, Pow(h + 1));
    DivUnique(o, Bytes(h + 1), 0, o);
    assert Path(ChunkOf(o), h) == Coord(h, 0);
  }

  lemma ExtendsTransitive(m0: Mem, ix0: Index, m1: Mem, ix1: Index, m2: Mem, ix2: Index)
    requires Extends(m0, ix0, m1, ix1) && Extends(m1, ix1, m2, ix2)
    ensures Extends(m0, ix0, m2, ix2)
  {
    HoldsMore(ix1, ix2);
    forall a | a in m0 && Holds(ix1, a) ensures Holds(ix0, a) {
      var c :| c in ix1.at && ix1.at[c] == a;
      assert c in ix0.at;
    }
  }

  lemma ExtendsRefl(m: Mem, ix: Index)
    ensures Extends(m, ix, m, ix)
  {
  }

  lemma ExtendsGrow(m0: Mem, ix0: Index, m: Mem, root: nat, ix: Index, m': Mem, root': nat)
    requires Extends(m0, ix0, m, ix) && Coord(ix.height + 1, 0) !in ix.at
    requires root' !in m && m' == m[root' := With(Zeros(), 0, root)]
    ensures Extends(m0, ix0, m', Grown(ix, root'))
    ensures Grown(ix, root').height == ix.height + 1 && Grown(ix, root').chunks == ix.chunks
  {
    var ix' := Grown(ix, root');
    assert ix'.at[Coord(ix.height + 1, 0)] == root';
    HoldsMore(ix, ix');
  }

  lemma ExtendsLink(m0: Mem, ix0: Index, m: Mem, ix: Index, m': Mem, c: Coord, i: nat, a: nat)
    requires Extends(m0, ix0, m, ix) && c in ix.at && ix.at[c] in m && i < |m[ix.at[c]]|
    requires c.level > 0 && Child(c, i) !in ix.at && a !in m
    requires m' == m[ix.at[c] := With(m[ix.at[c]], i, a)][a := Zeros()]
    ensures Extends(m0, ix0, m', Linked(ix, Child(c, i), a))
    ensures Linked(ix, Child(c, i), a).height == ix.height
    ensures Linked(ix, Child(c, i), a).at == ix.at[Child(c, i) := a]
    ensures Linked(ix, Child(c, i), a).chunks == ix.chunks
  {
    var ix' := Linked(ix, Child(c, i), a);
    assert ix'.at[Child(c, i)] == a;
    assert ix.at[c] in m0 ==> c in ix0.at;
    HoldsMore(ix, ix');
  }

  lemma ExtendsPut(m0: Mem, ix0: Index, m: Mem, ix: Index, m': Mem, k: nat, base: nat)
    requires Extends(m0, ix0, m, ix)
    requires Coord(0, k / FANOUT) in ix.at
    requires var leaf := ix.at[Coord(0, k / FANOUT)];
             leaf in m && |m[leaf]| == FANOUT && m' == m[leaf := With(m[leaf], k % FANOUT, base)]
    ensures Extends(m0, ix0, m', Put(ix, k, base))
    ensures Put(ix, k, base).height == ix.height && Put(ix, k, base).chunks == ix.chunks[k := base]
  {
    var c := Coord(0, k / FANOUT);
    assert ix.at[c] in m0 ==> c in ix0.at;
    HoldsMore(ix, Put(ix, k, base));
  }

  lemma HoldsMore(ix: Index, ix': Index)
    requires forall c | c in ix.at :: c in ix'.at && ix'.at[c] == ix.at[c]
    ensures forall a | Holds(ix, a) :: Holds(ix', a)
  {
    forall a | Holds(ix, a) ensures Holds(ix', a) {
      var c :| c in ix.at && ix.at[c] == a;
      assert ix'.at[c] == a;
    }
  }
}
