/** Freeing the table tree of one file (lib/fileops_noposix.c, lines 181-210). */
module TableFree {
  import opened Basics
  import opened CMemory
  import opened RadixIndex

  /** The place at level `l` that the table at `d` hangs below. */
  function Above(d: Coord, l: nat): Coord
    requires d.level <= l
    decreases l - d.level
  {
    if d.level == l then d else Above(Parent(d), l)
  }

  ghost predicate Under(d: Coord, c: Coord) {
    d.level <= c.level && Above(d, c.level) == c
  }

  ghost predicate IsInner(ix: Index, c: Coord, d: Coord) {
    d in ix.at && d.level > 0 && Under(d, c)
  }

  ghost predicate IsInnerBelow(ix: Index, c: Coord, n: nat, d: Coord)
    requires c.level > 0
  {
    && d in ix.at && 0 < d.level < c.level && Under(d, c)
    && Above(d, c.level - 1).prefix < c.prefix * FANOUT + n
  }

  /** The tables above the leaves in the subtree at `c`. */
  ghost function Inner(ix: Index, c: Coord): set<nat> {
    set d | d in ix.at && IsInner(ix, c, d) :: ix.at[d]
  }

  /** The part of it below the first `n` slots of the table at `c`. */
  ghost function InnerBelow(ix: Index, c: Coord, n: nat): set<nat>
    requires c.level > 0
  {
    set d | d in ix.at && IsInnerBelow(ix, c, n, d) :: ix.at[d]
  }

  lemma AboveParent(d: Coord, l: nat)
    requires d.level <= l
    ensures Above(d, l + 1) == Parent(Above(d, l)) && Above(d, l).level == l
    decreases l - d.level
  {
    if d.level < l { AboveParent(Parent(d), l); }
  }

  lemma AboveIn(ix: Index, d: Coord, l: nat)
    requires Shape(ix) && d in ix.at && d.level <= l <= ix.height
    ensures Above(d, l) in ix.at
    decreases l - d.level
  {
    if d.level < l { AboveIn(ix, Parent(d), l); }
  }

  /** Everything hangs below the root. */
  lemma UnderRoot(ix: Index, d: Coord)
    requires Shape(ix) && d in ix.at
    ensures Under(d, Coord(ix.height, 0))
  {
    AboveIn(ix, d, ix.height);
    AboveParent(d, ix.height);
  }

  /** A table strictly below `c` hangs below exactly one slot of it. */
  lemma BelowSlot(d: Coord, c: Coord, i: nat)
    requires d.level < c.level && i < FANOUT
    ensures Under(d, Child(c, i)) <==>
            Under(d, c) && Above(d, c.level - 1).prefix == c.prefix * FANOUT + i
  {
    hide *;
    var e := Above(d, c.level - 1);
    AboveParent(d, c.level - 1);
    IsChild(e, c, i);
    UnderIs(d, c);
    UnderIs(d, Child(c, i));
  }

  lemma UnderIs(d: Coord, c: Coord)
    ensures Under(d, c) <==> d.level <= c.level && Above(d, c.level) == c
  {
  }

  lemma IsChild(e: Coord, c: Coord, i: nat)
    requires e.level + 1 == c.level && i < FANOUT
    ensures Child(c, i).level == c.level - 1
    ensures e == Child(c, i) <==> Parent(e) == c && e.prefix == c.prefix * FANOUT + i
  {
  }

  lemma BelowSomeSlot(d: Coord, c: Coord)
    requires d.level < c.level && Under(d, c)
    ensures c.prefix * FANOUT <= Above(d, c.level - 1).prefix < c.prefix * FANOUT + FANOUT
  {
    AboveParent(d, c.level - 1);
    hide Above;
    var p, q := Above(d, c.level - 1).prefix, c.prefix;
    assert p / FANOUT == q;
  }

  lemma InnerBelowStep(ix: Index, c: Coord, i: nat, d: Coord)
    requires Shape(ix) && c in ix.at && c.level > 0 && i < FANOUT && d in ix.at
    ensures IsInnerBelow(ix, c, i + 1, d) <==>
            IsInnerBelow(ix, c, i, d) || (Child(c, i) in ix.at && IsInner(ix, Child(c, i), d))
    ensures !(IsInnerBelow(ix, c, i, d) && IsInner(ix, Child(c, i), d))
  {
    if d.level < c.level {
      BelowSlot(d, c, i);
      if Under(d, Child(c, i)) { AboveIn(ix, d, c.level - 1); }
    }
  }

  lemma InnerBelowNext(ix: Index, c: Coord, i: nat)
    requires Shape(ix) && c in ix.at && c.level > 0 && i < FANOUT
    ensures InnerBelow(ix, c, i + 1) ==
            InnerBelow(ix, c, i) + if Child(c, i) in ix.at then Inner(ix, Child(c, i)) else {}
  {
    hide Shape;
    forall d | d in ix.at
      ensures IsInnerBelow(ix, c, i + 1, d) <==>
              IsInnerBelow(ix, c, i, d) || (Child(c, i) in ix.at && IsInner(ix, Child(c, i), d))
    {
      InnerBelowStep(ix, c, i, d);
    }
    hide IsInnerBelow;
    hide IsInner;
    assert InnerBelow(ix, c, i + 1) ==
           InnerBelow(ix, c, i) + if Child(c, i) in ix.at then Inner(ix, Child(c, i)) else {};
  }

  lemma InnerOrTop(ix: Index, c: Coord, d: Coord)
    requires Shape(ix) && c in ix.at && c.level > 0 && d in ix.at
    ensures IsInner(ix, c, d) <==> IsInnerBelow(ix, c, FANOUT, d) || d == c
    ensures IsInnerBelow(ix, c, FANOUT, d) ==> ix.at[d] != ix.at[c]
    ensures !IsInnerBelow(ix, c, 0, d)
  {
    if d.level < c.level && Under(d, c) { BelowSomeSlot(d, c); }
  }

  lemma InnerWhole(ix: Index, c: Coord)
    requires Shape(ix) && c in ix.at && c.level > 0
    ensures Inner(ix, c) == InnerBelow(ix, c, FANOUT) + {ix.at[c]}
    ensures ix.at[c] !in InnerBelow(ix, c, FANOUT) && InnerBelow(ix, c, 0) == {}
  {
    hide Shape, IsInner, IsInnerBelow;
    forall d | d in ix.at
      ensures IsInner(ix, c, d) <==> IsInnerBelow(ix, c, FANOUT, d) || d == c
      ensures IsInnerBelow(ix, c, FANOUT, d) ==> ix.at[d] != ix.at[c]
      ensures !IsInnerBelow(ix, c, 0, d)
    {
      InnerOrTop(ix, c, d);
    }
  }

  /** The part of memory `free_btree` is about to walk still holds the tree. */
  ghost predicate Intact(m: Mem, ix: Index, c: Coord) {
    forall d | d in ix.at && Under(d, c) ::
      && ix.at[d] != 0 && ix.at[d] in m && |m[ix.at[d]]| == FANOUT
      && forall i: nat | i < FANOUT :: m[ix.at[d]][i] == SlotValue(ix, d, i)
  }

  /** The sweep over the table at `c` has dealt with the slots below `i`: they are cleared, the
      inner tables below them are gone, and nothing else has changed. */
  ghost predicate Swept(m0: Mem, m: Mem, ix: Index, c: Coord, i: nat)
    requires c in ix.at && c.level > 0
  {
    && ix.at[c] in m && |m[ix.at[c]]| == FANOUT
    && (forall j: nat | j < FANOUT :: m[ix.at[c]][j] == if j < i then 0 else SlotValue(ix, c, j))
    && m.Keys == m0.Keys - InnerBelow(ix, c, i)
    && (forall a | a in m && a != ix.at[c] :: m[a] == m0[a])
  }

  lemma SweepStart(m: Mem, ix: Index, c: Coord)
    requires Shape(ix) && c in ix.at && c.level > 0 && Intact(m, ix, c)
    ensures Swept(m, m, ix, c, 0)
  {
    InnerWhole(ix, c);
  }

  /** An empty slot is passed over. */
  lemma SweepSkip(m0: Mem, m: Mem, ix: Index, c: Coord, i: nat)
    requires Shape(ix) && c in ix.at && c.level > 0 && i < 1024 && Swept(m0, m, ix, c, i)
    requires Intact(m0, ix, c)
    ensures ix.at[c] in m && |m[ix.at[c]]| == 1024
    ensures m[ix.at[c]][i] == 0 ==> Swept(m0, m, ix, c, i + 1)
    ensures m[ix.at[c]][i] != 0 ==>
              && Child(c, i) in ix.at && ix.at[Child(c, i)] == m[ix.at[c]][i]
              && Child(c, i).level == c.level - 1
              && Intact(m, ix, Child(c, i))
  {
    InnerBelowNext(ix, c, i);
    assert m[ix.at[c]][i] == SlotValue(ix, c, i);
    if m[ix.at[c]][i] == 0 {
      EmptySlot(m0, ix, c, i);
    } else {
      ChildIntact(m0, m, ix, c, i);
    }
  }

  lemma EmptySlot(m0: Mem, ix: Index, c: Coord, i: nat)
    requires Shape(ix) && c in ix.at && c.level > 0 && i < FANOUT && Intact(m0, ix, c)
    requires SlotValue(ix, c, i) == 0
    ensures Child(c, i) !in ix.at
  {
    if Child(c, i) in ix.at { ChildNonzero(m0, ix, c, i); }
  }

  lemma ChildNonzero(m: Mem, ix: Index, c: Coord, i: nat)
    requires c.level > 0 && i < FANOUT && Child(c, i) in ix.at && Intact(m, ix, c)
    ensures SlotValue(ix, c, i) != 0
  {
    IsChild(Child(c, i), c, i);
    assert Under(Child(c, i), c);
  }

  lemma ChildIntact(m0: Mem, m: Mem, ix: Index, c: Coord, i: nat)
    requires Shape(ix) && c in ix.at && c.level > 0 && i < FANOUT && Child(c, i) in ix.at
    requires Intact(m0, ix, c) && Swept(m0, m, ix, c, i)
    ensures Intact(m, ix, Child(c, i))
  {
    forall d | d in ix.at && Under(d, Child(c, i))
      ensures ix.at[d] != 0 && ix.at[d] in m && |m[ix.at[d]]| == FANOUT
      ensures forall j: nat | j < FANOUT :: m[ix.at[d]][j] == SlotValue(ix, d, j)
    {
      TableIntact(m0, m, ix, c, i, d);
    }
    hide Swept, Shape, Under, SlotValue;
  }

  lemma TableIntact(m0: Mem, m: Mem, ix: Index, c: Coord, i: nat, d: Coord)
    requires Shape(ix) && c in ix.at && c.level > 0 && i < FANOUT && Child(c, i) in ix.at
    requires Intact(m0, ix, c) && Swept(m0, m, ix, c, i) && d in ix.at && Under(d, Child(c, i))
    ensures ix.at[d] != 0 && ix.at[d] in m && |m[ix.at[d]]| == FANOUT
    ensures forall j: nat | j < FANOUT :: m[ix.at[d]][j] == SlotValue(ix, d, j)
  {
    BelowSlot(d, c, i);
    assert ix.at[d] !in InnerBelow(ix, c, i) && d != c;
    hide Shape, InnerBelow, SlotValue;
  }

  /** After the child's subtree is freed, the slot is cleared. */
  lemma SweepFreed(m0: Mem, m: Mem, ix: Index, c: Coord, i: nat)
    requires Shape(ix) && c in ix.at && c.level > 0 && i < 1024 && Swept(m0, m, ix, c, i)
    requires Child(c, i) in ix.at
    ensures var m' := m - Inner(ix, Child(c, i));
            && ix.at[c] in m' && |m'[ix.at[c]]| == 1024
            && Swept(m0, m'[ix.at[c] := With(m'[ix.at[c]], i, 0)], ix, c, i + 1)
  {
    InnerBelowNext(ix, c, i);
    assert ix.at[c] !in Inner(ix, Child(c, i)) by {
      forall d | d in ix.at && Under(d, Child(c, i)) ensures d != c {
      }
    }
  }

  lemma LeafInner(ix: Index, c: Coord)
    requires c.level == 0
    ensures Inner(ix, c) == {}
  {
  }

  lemma SweepEnd(m0: Mem, m: Mem, ix: Index, c: Coord)
    requires Shape(ix) && c in ix.at && c.level > 0 && Swept(m0, m, ix, c, 1024)
    ensures ix.at[c] in m && m - {ix.at[c]} == m0 - Inner(ix, c)
  {
    InnerWhole(ix, c);
  }

  /** free_btree: every table above the leaves is freed - each while still live, hence once - and
      no other table is freed or written. Leaves stay allocated, and the words in them, which are
      mapping addresses, are never followed. */
  method FreeBtree(heap: CHeap, root: nat, height: nat, ghost ix: Index, ghost c: Coord)
    requires heap.Valid() && height == c.level
    requires height > 0 ==> Shape(ix) && c in ix.at && root == ix.at[c] && Intact(heap.mem, ix, c)
    modifies heap.repr
    ensures heap.Valid() && fresh(heap.repr - old(heap.repr))
    ensures heap.mem == old(heap.mem) - Inner(ix, c)
    decreases height
  {
    hide *;
    if height == 0 {
      LeafInner(ix, c);
      return;
    }
    SweepStart(heap.mem, ix, c);
    var i: nat := 0;
    while i < 1024
      invariant i <= 1024 && heap.Valid() && fresh(heap.repr - old(heap.repr))
      invariant Swept(old(heap.mem), heap.mem, ix, c, i)
    {
      SweepSkip(old(heap.mem), heap.mem, ix, c, i);
      Constants();
      var child: nat := heap.Load(root, i);
      if child != 0 {
        SweepFreed(old(heap.mem), heap.mem, ix, c, i);
        FreeBtree(heap, child, height - 1, ix, Child(c, i));
        heap.Store(root, i, 0);
      }
      i := i + 1;
    }
    SweepEnd(old(heap.mem), heap.mem, ix, c);
    heap.Free(root);
  }
}
