/** The abstract state behind fd_lookup: every open file with its index, who owns each live table,
    and the kernel's mappings; and what a chunk fault, an open and a close do to it. */
module OpenFiles {
  import opened Basics
  import opened Capacity
  import opened CMemory
  import opened RadixIndex
  import opened TableTree
  import opened TableFree

  const OPEN_MAX: nat := 1024

  /** One mmap of MAX_MMAP_SIZE bytes: the file it shows, and from which byte. */
  datatype Mapping = Mapping(inode: nat, start: nat)

  /** Live mappings by base address. close1 does not unmap, so this only grows. */
  type Mappings = map<nat, Mapping>

  /** A struct NVFile, with the file behind the descriptor, the open session and the chunk map. */
  datatype FileState = FileState(
    valid: bool, offset: nat, length: nat, root: nat, inode: nat, session: nat, index: Index)

  /** `owner` tells which descriptor's tree a live table belongs to; `leaked` are the live tables
      no tree reaches any more; `touched` are the (session, chunk) pairs mapped so far. */
  datatype World = World(
    mem: Mem, files: seq<FileState>, owner: map<nat, nat>, leaked: set<nat>,
    mappings: Mappings, touched: set<(nat, nat)>, sessions: nat)

  /** The tables of one tree. */
  function Tables(ix: Index): set<nat> {
    set c | c in ix.at :: ix.at[c]
  }

  ghost predicate ChunksMapped(f: FileState, mappings: Mappings) {
    forall k | k in f.index.chunks ::
      f.index.chunks[k] in mappings && mappings[f.index.chunks[k]] == Mapping(f.inode, k * MAX_MMAP_SIZE)
  }

  ghost predicate ChunksTouched(f: FileState, touched: set<(nat, nat)>) {
    forall k: nat :: k in f.index.chunks <==> (f.session, k) in touched
  }

  ghost predicate Owned(ix: Index, fd: nat, owner: map<nat, nat>) {
    forall c | c in ix.at :: ix.at[c] in owner && owner[ix.at[c]] == fd
  }

  /** Only a file with mapped chunks has leaves below its root: each holds a chunk, except for a root
      table that the tree outgrew while it was empty. */
  ghost predicate LeavesUsed(ix: Index) {
    ix.height > 0 ==>
      forall c | c in ix.at && c.level == 0 ::
        ix.chunks != map[] && (c.prefix == 0 || HasChunk(ix, c.prefix))
  }

  /** Some chunk of the `q`-th leaf is mapped. */
  ghost predicate HasChunk(ix: Index, q: nat) {
    exists k :: k in ix.chunks && k / FANOUT == q
  }

  ghost predicate FileOk(w: World, f: FileState, fd: nat) {
    && f.offset < TWO_64 && f.length < TWO_63
    && Owned(f.index, fd, w.owner) && LeavesUsed(f.index)
    && (if f.valid then
          && Represents(w.mem, f.root, f.index)
          && ChunksMapped(f, w.mappings)
          && f.session < w.sessions && ChunksTouched(f, w.touched)
        else
          f.root == 0 && f.index == NO_INDEX)
  }

  /** Every live table is in exactly one tree of exactly one file, or leaked. */
  ghost predicate Accounted(w: World) {
    && w.mem.Keys == w.owner.Keys + w.leaked
    && w.owner.Keys !! w.leaked
    && forall a | a in w.owner :: w.owner[a] < |w.files| && a in Tables(w.files[w.owner[a]].index)
  }

  ghost predicate SessionsApart(w: World) {
    && (forall t | t in w.touched :: t.0 < w.sessions)
    && (forall i, j | 0 <= i < j < |w.files| && w.files[i].valid && w.files[j].valid ::
          w.files[i].session != w.files[j].session)
  }

  ghost predicate MappingsApart(mappings: Mappings) {
    && 0 !in mappings
    && forall a, b | a in mappings && b in mappings && a < b :: a + MAX_MMAP_SIZE <= b
  }

  ghost predicate WorldOk(w: World) {
    && |w.files| == OPEN_MAX
    && (forall fd: nat | fd < OPEN_MAX :: FileOk(w, w.files[fd], fd))
    && Accounted(w) && SessionsApart(w) && MappingsApart(w.mappings)
  }

  // ----- the transitions -----

  function Repositioned(w: World, fd: nat, offset: nat): World
    requires fd < |w.files|
  {
    w.(files := w.files[fd := w.files[fd].(offset := offset)])
  }

  lemma RepositionOk(w: World, fd: nat, offset: nat)
    requires WorldOk(w) && fd < OPEN_MAX && offset < TWO_64
    ensures WorldOk(Repositioned(w, fd, offset))
  {
    hide FileOk, Accounted, SessionsApart, MappingsApart;
    var w' := Repositioned(w, fd, offset);
    forall i: nat | i < OPEN_MAX ensures FileOk(w', w'.files[i], i) {
      SameFile(w, w', i, offset);
    }
    SameIndexes(w, w');
  }

  lemma SameFile(w: World, w': World, i: nat, offset: nat)
    requires i < |w.files| == |w'.files| && FileOk(w, w.files[i], i)
    requires w' == w.(files := w'.files) && offset < TWO_64
    requires w'.files[i] == w.files[i] || w'.files[i] == w.files[i].(offset := offset)
    ensures FileOk(w', w'.files[i], i)
  {
    hide Represents, Owned;
  }

  lemma SameIndexes(w: World, w': World)
    requires Accounted(w) && SessionsApart(w) && |w.files| == |w'.files|
    requires forall i: nat | i < |w.files| ::
               && w'.files[i].index == w.files[i].index && w'.files[i].session == w.files[i].session
               && w'.files[i].valid == w.files[i].valid
    requires w' == w.(files := w'.files)
    ensures Accounted(w') && SessionsApart(w')
  {
  }

  /** A chunk fault: the index of `fd` has grown to (root, ix) and memory to `m`. */
  function Faulted(w: World, fd: nat, k: nat, base: nat, m: Mem, root: nat, ix: Index): World
    requires fd < |w.files|
  {
    var f := w.files[fd];
    World(m, w.files[fd := f.(root := root, index := ix)],
          w.owner + (map a | a in m && a !in w.mem :: fd), w.leaked,
          w.mappings[base := Mapping(f.inode, k * MAX_MMAP_SIZE)],
          w.touched + {(f.session, k)}, w.sessions)
  }

  lemma FaultOk(w: World, fd: nat, k: nat, base: nat, m: Mem, root: nat, ix: Index)
    requires WorldOk(w) && fd < OPEN_MAX && w.files[fd].valid
    requires Extends(w.mem, w.files[fd].index, m, ix) && Represents(m, root, ix)
    requires k !in w.files[fd].index.chunks && ix.chunks == w.files[fd].index.chunks[k := base]
    requires LeavesWithin(w.files[fd].index, ix, k)
    requires base !in w.mappings && MappingsApart(w.mappings[base := Mapping(w.files[fd].inode, k * MAX_MMAP_SIZE)])
    ensures WorldOk(Faulted(w, fd, k, base, m, root, ix))
    ensures (w.files[fd].session, k) !in w.touched
  {
    hide FileOk, Represents, Extends, Accounted, MappingsApart;
    var w' := Faulted(w, fd, k, base, m, root, ix);
    FaultAccounted(w, fd, k, base, m, root, ix);
    FaultSessions(w, fd, k, base, m, root, ix);
    forall i: nat | i < OPEN_MAX ensures FileOk(w', w'.files[i], i) {
      if i == fd {
        FaultThis(w, fd, k, base, m, root, ix);
      } else {
        FaultOther(w, fd, k, base, m, root, ix, i);
      }
    }
  }

  lemma FaultSessions(w: World, fd: nat, k: nat, base: nat, m: Mem, root: nat, ix: Index)
    requires fd < |w.files| && w.files[fd].valid && FileOk(w, w.files[fd], fd)
    requires SessionsApart(w) && k !in w.files[fd].index.chunks
    ensures SessionsApart(Faulted(w, fd, k, base, m, root, ix))
    ensures (w.files[fd].session, k) !in w.touched
  {
    hide Represents, Owned, Accounted, MappingsApart;
  }

  lemma FaultAccounted(w: World, fd: nat, k: nat, base: nat, m: Mem, root: nat, ix: Index)
    requires fd < |w.files| && Accounted(w) && Extends(w.mem, w.files[fd].index, m, ix)
    ensures Accounted(Faulted(w, fd, k, base, m, root, ix))
  {
    var w' := Faulted(w, fd, k, base, m, root, ix);
    forall a | a in w'.owner ensures w'.owner[a] < |w.files| && a in Tables(w'.files[w'.owner[a]].index) {
      if a in w.owner {
        assert a in Tables(w.files[w.owner[a]].index);
        if w.owner[a] == fd { TablesKept(w.mem, w.files[fd].index, m, ix, a); }
      } else {
        TablesGained(w.mem, w.files[fd].index, m, ix, a);
      }
    }
    hide Tables;
  }

  lemma TablesKept(m0: Mem, ix0: Index, m: Mem, ix: Index, a: nat)
    requires Extends(m0, ix0, m, ix) && a in Tables(ix0)
    ensures a in Tables(ix)
  {
    var c :| c in ix0.at && ix0.at[c] == a;
    assert ix.at[c] == a;
  }

  lemma TablesGained(m0: Mem, ix0: Index, m: Mem, ix: Index, a: nat)
    requires Extends(m0, ix0, m, ix) && a in m && a !in m0
    ensures a in Tables(ix)
  {
    assert Holds(ix, a);
  }

  lemma FaultThis(w: World, fd: nat, k: nat, base: nat, m: Mem, root: nat, ix: Index)
    requires fd < |w.files| && w.files[fd].valid && FileOk(w, w.files[fd], fd)
    requires Accounted(w) && Extends(w.mem, w.files[fd].index, m, ix) && Represents(m, root, ix)
    requires ix.chunks == w.files[fd].index.chunks[k := base] && base !in w.mappings
    requires LeavesWithin(w.files[fd].index, ix, k)
    ensures var w' := Faulted(w, fd, k, base, m, root, ix); FileOk(w', w'.files[fd], fd)
  {
    hide Represents, LeavesUsed, LeavesWithin;
    ShapeOf(w.mem, w.files[fd].root, w.files[fd].index);
    LeavesStayUsed(w.files[fd].index, ix, k, base);
    FaultOwned(w, fd, k, base, m, root, ix);
    FaultChunks(w, fd, k, base, m, root, ix);
    hide Owned, Accounted, Extends, ChunksMapped, ChunksTouched;
  }

  lemma FaultChunks(w: World, fd: nat, k: nat, base: nat, m: Mem, root: nat, ix: Index)
    requires fd < |w.files| && base !in w.mappings
    requires ChunksMapped(w.files[fd], w.mappings) && ChunksTouched(w.files[fd], w.touched)
    requires ix.chunks == w.files[fd].index.chunks[k := base]
    ensures var w' := Faulted(w, fd, k, base, m, root, ix);
            ChunksMapped(w'.files[fd], w'.mappings) && ChunksTouched(w'.files[fd], w'.touched)
  {
  }

  lemma FaultOwned(w: World, fd: nat, k: nat, base: nat, m: Mem, root: nat, ix: Index)
    requires fd < |w.files| && Owned(w.files[fd].index, fd, w.owner)
    requires Accounted(w) && Extends(w.mem, w.files[fd].index, m, ix) && Represents(m, root, ix)
    ensures Owned(ix, fd, Faulted(w, fd, k, base, m, root, ix).owner)
  {
    hide Represents;
    var w' := Faulted(w, fd, k, base, m, root, ix);
    forall c | c in ix.at ensures ix.at[c] in w'.owner && w'.owner[ix.at[c]] == fd {
      if c in w.files[fd].index.at {
        assert ix.at[c] in w.owner && ix.at[c] in w.mem;
      } else {
        NewTableLive(m, root, ix, c);
      }
    }
  }

  lemma LeavesStayUsed(ix0: Index, ix: Index, k: nat, base: nat)
    requires Shape(ix0) && LeavesUsed(ix0) && LeavesWithin(ix0, ix, k) && ix.chunks == ix0.chunks[k := base]
    ensures LeavesUsed(ix)
  {
    assert k in ix.chunks;
    PowValues();
    forall c | c in ix.at && c.level == 0 ensures c.prefix == 0 || HasChunk(ix, c.prefix) {
      if c in ix0.at && ix0.height > 0 && c.prefix != 0 {
        var j :| j in ix0.chunks && j / FANOUT == c.prefix;
        assert j in ix.chunks;
      } else if c !in ix0.at {
        assert c == Path(k, 0) && k / FANOUT == c.prefix;
      }
    }
  }

  lemma NewTableLive(m: Mem, root: nat, ix: Index, c: Coord)
    requires Represents(m, root, ix) && c in ix.at
    ensures ix.at[c] in m
  {
  }

  lemma FaultOther(w: World, fd: nat, k: nat, base: nat, m: Mem, root: nat, ix: Index, i: nat)
    requires WorldOk(w) && fd < OPEN_MAX && i < OPEN_MAX && i != fd
    requires w.files[fd].valid && base !in w.mappings
    requires Extends(w.mem, w.files[fd].index, m, ix)
    ensures FileOk(Faulted(w, fd, k, base, m, root, ix), w.files[i], i)
  {
    hide Represents, MappingsApart, Extends;
    var f, g, w' := w.files[fd], w.files[i], Faulted(w, fd, k, base, m, root, ix);
    assert FileOk(w, g, i) && FileOk(w, f, fd);
    OthersTables(w, fd, i, m, ix);
    if g.valid {
      Frame(w.mem, m, g.root, g.index);
      assert f.session != g.session;
    }
  }

  /** Faulting a chunk of one file leaves every other file's tables alone. */
  lemma OthersTables(w: World, fd: nat, i: nat, m: Mem, ix: Index)
    requires fd < |w.files| && i < |w.files| && i != fd
    requires Accounted(w) && Extends(w.mem, w.files[fd].index, m, ix)
    requires Owned(w.files[fd].index, fd, w.owner) && Owned(w.files[i].index, i, w.owner)
    ensures forall c | c in w.files[i].index.at ::
              var a := w.files[i].index.at[c]; a in w.mem && a in m && m[a] == w.mem[a]
  {
    forall c | c in w.files[i].index.at
      ensures var a := w.files[i].index.at[c]; a in w.mem && a in m && m[a] == w.mem[a]
    {
      NotHeld(w.files[fd].index, fd, w.owner, w.files[i].index.at[c]);
    }
  }

  lemma NotHeld(ix: Index, fd: nat, owner: map<nat, nat>, a: nat)
    requires Owned(ix, fd, owner) && a in owner && owner[a] != fd
    ensures !Holds(ix, a) && a !in Tables(ix)
  {
  }

  /** An open: `root` is the file's cleared table, either new or - when the descriptor still had
      one - the old root, whose other tables are then lost. The height stays. */
  function Opened(w: World, fd: nat, length: nat, inode: nat, root: nat): World
    requires fd < |w.files|
  {
    var ix := w.files[fd].index;
    var h := ix.height;
    World(w.mem[root := Zeros()],
          w.files[fd := FileState(true, 0, length, root, inode, w.sessions,
                                  Index(h, map[Coord(h, 0) := root], map[]))],
          (w.owner - Tables(ix))[root := fd], w.leaked + (Tables(ix) - {root}),
          w.mappings, w.touched, w.sessions + 1)
  }

  lemma OpenOk(w: World, fd: nat, length: nat, inode: nat, root: nat)
    requires WorldOk(w) && fd < OPEN_MAX && length < TWO_63 && root != 0
    requires if w.files[fd].root == 0 then root !in w.mem else root == w.files[fd].root
    ensures WorldOk(Opened(w, fd, length, inode, root))
  {
    hide Represents, MappingsApart, Accounted, Owned;
    var f, w' := w.files[fd], Opened(w, fd, length, inode, root);
    assert FileOk(w, f, fd);
    RootIsTable(w, fd);
    OpenAccounted(w, fd, length, inode, root);
    forall i: nat | i < OPEN_MAX ensures FileOk(w', w'.files[i], i) {
      if i == fd {
        EmptyTable(w'.mem, root, f.index.height);
        assert Owned(w'.files[fd].index, fd, w'.owner) by { OwnedRoot(f.index.height, fd, root, w'.owner); }
        NoChunksYet(w, w'.files[fd]);
      } else {
        assert FileOk(w, w.files[i], i);
        OpenOthers(w, fd, i, root);
        OtherFileOk(w, w', fd, i, Tables(f.index) + {root});
      }
    }
  }

  lemma OwnedRoot(h: nat, fd: nat, root: nat, owner: map<nat, nat>)
    requires root in owner && owner[root] == fd
    ensures Owned(Index(h, map[Coord(h, 0) := root], map[]), fd, owner)
  {
  }

  lemma NoChunksYet(w: World, f: FileState)
    requires SessionsApart(w) && f.session == w.sessions && f.index.chunks == map[]
    ensures ChunksMapped(f, w.mappings) && ChunksTouched(f, w.touched)
  {
    forall k: nat ensures (f.session, k) !in w.touched {
    }
  }

  lemma RootIsTable(w: World, fd: nat)
    requires fd < |w.files| && FileOk(w, w.files[fd], fd)
    ensures var f := w.files[fd];
            && f.index.height <= MAX_HEIGHT
            && (f.root == 0 <==> !f.valid)
            && (f.valid ==> f.root in Tables(f.index) && f.root in w.mem)
  {
    var f := w.files[fd];
    if f.valid {
      assert f.index.at[Coord(f.index.height, 0)] == f.root;
    }
  }

  lemma OpenOthers(w: World, fd: nat, i: nat, root: nat)
    requires fd < |w.files| && i != fd
    requires Accounted(w) && Owned(w.files[fd].index, fd, w.owner)
    requires root !in w.mem || root in Tables(w.files[fd].index)
    ensures forall a | a in w.owner && w.owner[a] == i :: a !in Tables(w.files[fd].index) + {root}
  {
  }

  lemma OpenAccounted(w: World, fd: nat, length: nat, inode: nat, root: nat)
    requires fd < |w.files| && Accounted(w) && Owned(w.files[fd].index, fd, w.owner)
    requires root !in w.mem || root in Tables(w.files[fd].index)
    ensures Accounted(Opened(w, fd, length, inode, root))
  {
    var ix, w' := w.files[fd].index, Opened(w, fd, length, inode, root);
    assert w'.files[fd].index.at[Coord(ix.height, 0)] == root;
    assert Tables(ix) <= w.owner.Keys;
    forall a | a in w'.owner
      ensures w'.owner[a] < |w.files| && a in Tables(w'.files[w'.owner[a]].index)
    {
      if a != root {
        assert a in w.owner && a !in Tables(ix) && a in Tables(w.files[w.owner[a]].index);
      }
    }
  }

  /** A file whose tables keep their owner and contents stays as it was. */
  lemma OtherFileOk(w: World, w': World, fd: nat, i: nat, gone: set<nat>)
    requires i < |w.files| && FileOk(w, w.files[i], i) && i != fd
    requires w'.mappings == w.mappings && w'.touched == w.touched && w'.sessions >= w.sessions
    requires Accounted(w)
    requires forall a | a in w.owner && w.owner[a] == i :: a !in gone
    requires forall a | a in w.owner && a !in gone :: a in w'.owner && w'.owner[a] == w.owner[a]
    requires forall a | a in w.mem && a !in gone :: a in w'.mem && w'.mem[a] == w.mem[a]
    ensures FileOk(w', w.files[i], i)
  {
    hide Represents;
    var g := w.files[i];
    if g.valid {
      Frame(w.mem, w'.mem, g.root, g.index);
    }
  }

  /** What close1 frees: the tables above the leaves, and a root that is itself a leaf. */
  ghost function Freed(ix: Index): set<nat> {
    set c | c in ix.at && (c.level > 0 || ix.height == 0) :: ix.at[c]
  }

  /** Freeing above the leaves, and then the root if it is a leaf, frees exactly `Freed`. */
  lemma FreedIs(ix: Index)
    requires Shape(ix)
    ensures var top := Coord(ix.height, 0);
            Freed(ix) == Inner(ix, top) + if ix.height == 0 then {ix.at[top]} else {}
  {
    forall d | d in ix.at ensures Under(d, Coord(ix.height, 0)) {
      UnderRoot(ix, d);
    }
  }

  /** The whole tree is intact when the index is represented. */
  lemma RootIntact(m: Mem, root: nat, ix: Index)
    requires Represents(m, root, ix)
    ensures Shape(ix) && Coord(ix.height, 0) in ix.at && ix.at[Coord(ix.height, 0)] == root
    ensures Intact(m, ix, Coord(ix.height, 0)) && root != 0 && root in m
    ensures ix.height > 0 ==> root in Inner(ix, Coord(ix.height, 0))
    ensures ix.height == 0 ==> root !in Inner(ix, Coord(ix.height, 0))
  {
    UnderRoot(ix, Coord(ix.height, 0));
  }

  ghost function Closed(w: World, fd: nat): World
    requires fd < |w.files|
  {
    var f := w.files[fd];
    World(w.mem - Freed(f.index),
          w.files[fd := f.(valid := false, root := 0, index := NO_INDEX)],
          w.owner - Tables(f.index), w.leaked + (Tables(f.index) - Freed(f.index)),
          w.mappings, w.touched, w.sessions)
  }

  lemma CloseOk(w: World, fd: nat)
    requires WorldOk(w) && fd < OPEN_MAX
    ensures WorldOk(Closed(w, fd))
  {
    hide Represents, MappingsApart, Accounted, Freed, Owned;
    var f, w' := w.files[fd], Closed(w, fd);
    assert FileOk(w, f, fd);
    CloseAccounted(w, fd);
    forall i: nat | i < OPEN_MAX ensures FileOk(w', w'.files[i], i) {
      if i == fd {
        assert Owned(NO_INDEX, fd, w'.owner) by { NoTables(fd, w'.owner); }
      } else {
        assert FileOk(w, w.files[i], i);
        CloseOthers(w, fd, i);
        OtherFileOk(w, w', fd, i, Tables(f.index));
      }
    }
  }

  lemma NoTables(fd: nat, owner: map<nat, nat>)
    ensures Owned(NO_INDEX, fd, owner)
  {
  }

  lemma CloseOthers(w: World, fd: nat, i: nat)
    requires fd < |w.files| && i != fd
    requires Accounted(w) && Owned(w.files[fd].index, fd, w.owner)
    ensures forall a | a in w.owner && w.owner[a] == i :: a !in Tables(w.files[fd].index)
    ensures Freed(w.files[fd].index) <= Tables(w.files[fd].index)
  {
  }

  lemma CloseAccounted(w: World, fd: nat)
    requires fd < |w.files| && Accounted(w) && Owned(w.files[fd].index, fd, w.owner)
    ensures Accounted(Closed(w, fd))
  {
    var ix, w' := w.files[fd].index, Closed(w, fd);
    assert Tables(ix) <= w.owner.Keys && Freed(ix) <= Tables(ix);
    forall a | a in w'.owner
      ensures w'.owner[a] < |w.files| && a in Tables(w'.files[w'.owner[a]].index)
    {
      assert a in w.owner && a !in Tables(ix) && a in Tables(w.files[w.owner[a]].index);
    }
  }

  /** Leaves that close1 leaves behind, by number: those with a mapped chunk, and the file's first
      table if the tree outgrew it. */
  ghost function LostLeaves(ix: Index): set<nat> {
    if ix.height == 0 then {}
    else (set k | k in ix.chunks :: k / FANOUT) + if Coord(0, 0) in ix.at then {0} else {}
  }

  /** The leaf tables with numbers in `qs`. */
  function LeafTables(at: map<Coord, nat>, qs: set<nat>): set<nat> {
    set q | q in qs && Coord(0, q) in at :: at[Coord(0, q)]
  }

  lemma {:induction false} LeafTablesSize(at: map<Coord, nat>, qs: set<nat>)
    requires forall q | q in qs :: Coord(0, q) in at
    requires forall c, d | c in at && d in at && at[c] == at[d] :: c == d
    ensures |LeafTables(at, qs)| == |qs|
    decreases |qs|
  {
    if qs != {} {
      var q :| q in qs;
      LeafTablesSize(at, qs - {q});
      assert LeafTables(at, qs) == LeafTables(at, qs - {q}) + {at[Coord(0, q)]};
    }
  }

  lemma LeafNumbers(ix: Index, q: nat)
    requires Shape(ix) && LeavesUsed(ix) && ix.height > 0
    ensures Coord(0, q) in ix.at <==> q in LostLeaves(ix)
  {
    if Coord(0, q) in ix.at && q != 0 {
      assert HasChunk(ix, q);
    }
  }

  lemma LeafIsLost(ix: Index, c: Coord)
    requires Shape(ix) && c in ix.at
    ensures ix.at[c] in Freed(ix) <==> c.level > 0 || ix.height == 0
  {
  }

  lemma NotFreed(ix: Index, qs: set<nat>)
    requires forall c | c in ix.at :: ix.at[c] in Freed(ix) <==> c.level > 0 || ix.height == 0
    requires forall q: nat | ix.height > 0 :: Coord(0, q) in ix.at <==> q in qs
    requires ix.height == 0 ==> qs == {}
    ensures Tables(ix) - Freed(ix) == LeafTables(ix.at, qs)
  {
    hide Freed;
    forall a | a in Tables(ix) - Freed(ix) ensures a in LeafTables(ix.at, qs) {
      var c :| c in ix.at && ix.at[c] == a;
      assert c == Coord(0, c.prefix);
    }
    forall a | a in LeafTables(ix.at, qs) ensures a in Tables(ix) - Freed(ix) {
      var q :| q in qs && Coord(0, q) in ix.at && ix.at[Coord(0, q)] == a;
    }
  }

  /** The tables close1 does not free are exactly those leaves. */
  lemma LostAre(ix: Index)
    requires Shape(ix) && LeavesUsed(ix)
    ensures forall q | q in LostLeaves(ix) :: Coord(0, q) in ix.at
    ensures Tables(ix) - Freed(ix) == LeafTables(ix.at, LostLeaves(ix))
  {
    forall q: nat | ix.height > 0 ensures Coord(0, q) in ix.at <==> q in LostLeaves(ix) {
      LeafNumbers(ix, q);
    }
    forall c | c in ix.at ensures ix.at[c] in Freed(ix) <==> c.level > 0 || ix.height == 0 {
      LeafIsLost(ix, c);
    }
    assert ix.height == 0 ==> LostLeaves(ix) == {};
    hide *;
    NotFreed(ix, LostLeaves(ix));
  }

  /** What a close loses: one table for each leaf left behind - and so none exactly when the tree is a
      single table or no chunk of the file was ever mapped in this session. */
  lemma CloseLoses(w: World, fd: nat)
    requires WorldOk(w) && fd < OPEN_MAX
    ensures |Closed(w, fd).leaked| == |w.leaked| + |LostLeaves(w.files[fd].index)|
    ensures Closed(w, fd).leaked == w.leaked <==>
            w.files[fd].index.height == 0 || w.files[fd].index.chunks == map[]
  {
    hide *;
    LostSize(w, fd);
    var ix := w.files[fd].index;
    var lost := Tables(ix) - Freed(ix);
    assert Closed(w, fd).leaked == w.leaked + lost by { ClosedLeaks(w, fd); }
    assert |w.leaked + lost| == |w.leaked| + |lost|;
    if lost != {} {
      var a :| a in lost;
      assert a in w.leaked + lost && a !in w.leaked;
    }
  }

  lemma ClosedLeaks(w: World, fd: nat)
    requires fd < |w.files|
    ensures Closed(w, fd).leaked == w.leaked + (Tables(w.files[fd].index) - Freed(w.files[fd].index))
  {
  }

  lemma LostSize(w: World, fd: nat)
    requires WorldOk(w) && fd < OPEN_MAX
    ensures fd < |w.files|
    ensures var ix := w.files[fd].index;
            var lost := Tables(ix) - Freed(ix);
            && lost !! w.leaked && |lost| == |LostLeaves(ix)|
            && (lost == {} <==> ix.height == 0 || ix.chunks == map[])
  {
    var f := w.files[fd];
    assert FileOk(w, f, fd);
    OwnedNotLeaked(w, fd);
    hide Accounted, SessionsApart, MappingsApart, ChunksMapped, ChunksTouched, Owned, Stores;
    if f.valid {
      LostAre(f.index);
      LeafTablesSize(f.index.at, LostLeaves(f.index));
      LostWhen(f.index);
    } else {
      assert Tables(f.index) == {} && LostLeaves(f.index) == {};
    }
    hide *;
  }

  lemma OwnedNotLeaked(w: World, fd: nat)
    requires fd < |w.files| && Accounted(w) && Owned(w.files[fd].index, fd, w.owner)
    ensures Tables(w.files[fd].index) !! w.leaked
  {
  }

  lemma LostWhen(ix: Index)
    requires Shape(ix) && LeavesUsed(ix)
    ensures LostLeaves(ix) == {} <==> ix.height == 0 || ix.chunks == map[]
  {
    if ix.height > 0 {
      if k :| k in ix.chunks {
        assert k / FANOUT in LostLeaves(ix);
      } else {
        assert ix.chunks == map[];
      }
    }
  }
}
