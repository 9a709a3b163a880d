/** The replacement file operations over fd_lookup (lib/fileops_noposix.c, lines 181-471).
    The kernel's part - descriptors, inodes, sizes, mmap - appears as parameters and as the
    contract of `Mmap`. */
module FileOps {
  import opened Capacity
  import opened CMemory
  import opened RadixIndex
  import opened TableTree
  import opened TableFree
  import opened OpenFiles
  import opened FlatFile

  datatype Whence = SeekSet | SeekCur | SeekEnd | OtherWhence

  /** The range of `off_t`. */
  predicate IsOff(x: int) {
    -0x8000_0000_0000_0000 <= x < 0x8000_0000_0000_0000
  }

  /** The `n` bytes at address `p` show file `inode` from byte `offset` on. */
  ghost predicate Denotes(mappings: Mappings, p: nat, n: nat, inode: nat, offset: nat) {
    exists b | b in mappings ::
      && mappings[b].inode == inode && b <= p && p + n <= b + MAX_MMAP_SIZE
      && mappings[b].start + (p - b) == offset
  }

  /** The index of a descriptor's table array does not go below zero. */
  predicate Indexable(ix: Index, offset: nat) {
    PowPositive(ix.height);
    TruncInt(offset / Bytes(ix.height)) >= 0
  }

  /** Chunk `k` of `fd` is available: either it was, and nothing changed, or it has just been
      mapped, and it is the one key by which the chunk map grew. */
  ghost predicate Fetched(w: World, w': World, fd: nat, k: nat)
    requires |w.files| == |w'.files| && fd < |w.files|
  {
    var f, f' := w.files[fd], w'.files[fd];
    && k in f'.index.chunks
    && if k in f.index.chunks then w' == w else
         var base := f'.index.chunks[k];
         && f' == f.(root := f'.root, index := f'.index)
         && w'.files == w.files[fd := f']
         && f'.index.chunks == f.index.chunks[k := base] && f.index.at.Keys <= f'.index.at.Keys
         && (f'.index.height == f.index.height
             || (f'.index.height > f.index.height && IsLeastHeight(k * MAX_MMAP_SIZE, f'.index.height)))
         && base !in w.mappings
         && w'.mappings == w.mappings[base := Mapping(f.inode, k * MAX_MMAP_SIZE)]
         && w'.leaked == w.leaked
         && w'.touched == w.touched + {(f.session, k)} && (f.session, k) !in w.touched
         && w'.sessions == w.sessions
  }

  /** Nothing has been opened, mapped or allocated. */
  function NewWorld(): World {
    World(map[], seq(OPEN_MAX, _ => FileState(false, 0, 0, 0, 0, 0, NO_INDEX)), map[], {}, map[], {}, 0)
  }

  lemma NothingOpen()
    ensures var w := NewWorld();
            && WorldOk(w) && w.mem == map[] && w.mappings == map[] && w.leaked == {} && w.touched == {}
            && |w.files| == OPEN_MAX
            && forall i: nat | i < OPEN_MAX :: w.files[i] == FileState(false, 0, 0, 0, 0, 0, NO_INDEX)
  {
  }

  lemma FetchedHit(w: World, fd: nat, k: nat)
    requires fd < |w.files| && k in w.files[fd].index.chunks
    ensures Fetched(w, w, fd, k)
  {
  }

  lemma FetchedMiss(w: World, fd: nat, k: nat, base: nat, m: Mem, root: nat, ix: Index)
    requires fd < |w.files| && k !in w.files[fd].index.chunks
    requires ix.chunks == w.files[fd].index.chunks[k := base] && w.files[fd].index.at.Keys <= ix.at.Keys
    requires var h := w.files[fd].index.height;
             ix.height == h || (ix.height > h && IsLeastHeight(k * MAX_MMAP_SIZE, ix.height))
    requires base !in w.mappings && (w.files[fd].session, k) !in w.touched
    ensures var w' := Faulted(w, fd, k, base, m, root, ix);
            && Fetched(w, w', fd, k) && w' != w && w'.mem == m
            && w'.files == w.files[fd := w.files[fd].(root := root, index := ix)]
            && w'.files[fd].index.chunks[k] == base
            && |w'.touched| == |w.touched| + 1 && |w'.mappings| == |w.mappings| + 1
            && w'.mappings == w.mappings[base := Mapping(w.files[fd].inode, k * MAX_MMAP_SIZE)]
  {
  }

  lemma KeepsPlaces(m0: Mem, ix0: Index, m: Mem, ix: Index)
    requires Extends(m0, ix0, m, ix)
    ensures ix0.at.Keys <= ix.at.Keys
  {
  }

  lemma ApartWith(mappings: Mappings, base: nat, x: Mapping)
    requires MappingsApart(mappings) && base != 0
    requires forall b | b in mappings :: b + MAX_MMAP_SIZE <= base || base + MAX_MMAP_SIZE <= b
    ensures MappingsApart(mappings[base := x])
  {
  }

  /** A miss leaves a good state, in which the chunk has been fetched. */
  lemma MissOk(w: World, fd: nat, offset: nat, base: nat, m: Mem, root: nat, ix: Index)
    requires WorldOk(w) && fd < OPEN_MAX && w.files[fd].valid && ChunkOf(offset) !in w.files[fd].index.chunks
    requires Extends(w.mem, w.files[fd].index, m, ix) && Represents(m, root, ix)
    requires ix.chunks == w.files[fd].index.chunks[ChunkOf(offset) := base]
    requires LeavesWithin(w.files[fd].index, ix, ChunkOf(offset))
    requires ix.height >= w.files[fd].index.height
    requires ix.height > w.files[fd].index.height ==> IsLeastHeight(offset, ix.height)
    requires base != 0 && base !in w.mappings
    requires forall b | b in w.mappings :: b + MAX_MMAP_SIZE <= base || base + MAX_MMAP_SIZE <= b
    ensures var k := ChunkOf(offset);
            var w' := Faulted(w, fd, k, base, m, root, ix);
            && WorldOk(w') && Fetched(w, w', fd, k) && w' != w && w'.mem == m
            && w'.files == w.files[fd := w.files[fd].(root := root, index := ix)]
            && w'.files[fd].index.chunks[k] == base
            && |w'.touched| == |w.touched| + 1 && |w'.mappings| == |w.mappings| + 1
            && w'.mappings == w.mappings[base := Mapping(w.files[fd].inode, k * MAX_MMAP_SIZE)]
  {
    assert MappingsApart(w.mappings);
    hide *;
    var f, k := w.files[fd], ChunkOf(offset);
    ApartWith(w.mappings, base, Mapping(f.inode, k * MAX_MMAP_SIZE));
    FaultOk(w, fd, k, base, m, root, ix);
    if ix.height > f.index.height { LeastForChunk(offset, ix.height); }
    KeepsPlaces(w.mem, f.index, m, ix);
    FetchedMiss(w, fd, k, base, m, root, ix);
  }

  /** The outcome of the descent, in terms of the chunk map. */
  lemma DescentMeaning(m: Mem, root: nat, ix: Index, offset: nat, found: bool, addr: nat)
    requires Represents(m, root, ix) && offset < TWO_63 && Indexable(ix, offset)
    requires Walk(m, root, ix.height, offset) == if found then Hit(addr) else Miss
    ensures var k := Served(ix, offset);
            && (found <==> k in ix.chunks)
            && (found ==> addr == ix.chunks[k])
            && (!found ==> k == ChunkOf(offset))
  {
    PowPositive(ix.height);
    WalkTop(m, root, ix, offset);
  }

  lemma RoomMeans(offset: nat, length: nat)
    ensures MAX_MMAP_SIZE == 2097152
    ensures Min(Room(offset), length) ==
            var r := MAX_MMAP_SIZE - offset % MAX_MMAP_SIZE; if r > length then length else r
  {
  }

  /** The height an offset needs is the one its chunk needs. */
  lemma LeastForChunk(offset: nat, h: nat)
    requires IsLeastHeight(offset, h)
    ensures IsLeastHeight(ChunkOf(offset) * MAX_MMAP_SIZE, h)
  {
    hide Pow;
    WholeChunks(offset, Pow(h + 1));
    forall g: nat | 1 <= g <= h ensures Bytes(g) <= ChunkOf(offset) * MAX_MMAP_SIZE {
      WholeChunks(offset, Pow(g));
    }
  }

  lemma WholeChunks(offset: nat, n: nat)
    ensures MAX_MMAP_SIZE * n <= offset <==> MAX_MMAP_SIZE * n <= ChunkOf(offset) * MAX_MMAP_SIZE
  {
  }

  lemma Aligned(offset: nat)
    ensures AlignDown(offset) == ChunkOf(offset) * MAX_MMAP_SIZE
  {
  }

  lemma IndexableMeans(ix: Index, offset: nat)
    requires Indexable(ix, offset)
    ensures Bytes(ix.height) > 0 && TruncInt(offset / Bytes(ix.height)) >= 0
  {
    PowPositive(ix.height);
  }

  class NVFile {
    var valid: bool
    var offset: nat
    var length: nat
    var root: nat
    var height: nat
    ghost var inode: nat
    ghost var session: nat
    ghost var index: Index

    constructor ()
      ensures View() == FileState(false, 0, 0, 0, 0, 0, NO_INDEX) && height == 0
    {
      valid, offset, length, root, height := false, 0, 0, 0, 0;
      inode, session, index := 0, 0, NO_INDEX;
    }

    ghost function View(): FileState
      reads this
    {
      FileState(valid, offset, length, root, inode, session, index)
    }
  }

  /** Growth and insertion, on the descriptor's fields. The height is raised only as far as the
      offset needs. */
  method InsertChunk(heap: CHeap, nvf: NVFile, offset: nat, base: nat)
    requires heap.Valid() && nvf !in heap.repr && nvf.height == nvf.index.height
    requires Represents(heap.mem, nvf.root, nvf.index)
    requires offset < TWO_63 && base != 0
    modifies heap.repr, nvf`root, nvf`height, nvf`index
    ensures heap.Valid() && fresh(heap.repr - old(heap.repr))
    ensures Represents(heap.mem, nvf.root, nvf.index) && nvf.height == nvf.index.height
    ensures Extends(old(heap.mem), old(nvf.index), heap.mem, nvf.index)
    ensures nvf.index.chunks == old(nvf.index.chunks)[ChunkOf(offset) := base]
    ensures nvf.height >= old(nvf.height) && offset < Bytes(nvf.height + 1)
    ensures nvf.height > old(nvf.height) ==> IsLeastHeight(offset, nvf.height)
    ensures LeavesWithin(old(nvf.index), nvf.index, ChunkOf(offset))
  {
    hide *;
    var root: nat, height: nat, ix := Grow(heap, nvf.root, nvf.height, offset, nvf.index);
    ghost var mid: Mem, midIx := heap.mem, ix;
    ix := Fill(heap, root, height, offset, base, ix);
    ExtendsTransitive(old(heap.mem), nvf.index, mid, midIx, heap.mem, ix);
    LeavesTransitive(nvf.index, midIx, ix, ChunkOf(offset));
    nvf.root, nvf.height, nvf.index := root, height, ix;
  }

  /** A request that gets as far as the index can be looked up there. */
  ghost predicate InReach(f: FileState, size: nat, offset: nat) {
    size < TWO_64 && f.length < TWO_63
    && (PreadLength(f.length, size, offset) > 0 ==> Indexable(f.index, offset))
  }

  /** What a read of `size` bytes at `offset` leaves behind and returns: nothing at all, or `n`
      bytes at `buf'` that show the file - at `offset`, unless the index was truncated. */
  ghost predicate Answered(w: World, w': World, fd: nat, size: nat, offset: nat, buf: nat, buf': nat, n: nat) {
    && |w.files| == |w'.files| && fd < |w.files|
    && var f := w.files[fd];
    && size < TWO_64 && f.length < TWO_63
    && n == PreadLength(f.length, size, offset)
    && if n == 0 then w' == w && buf' == buf else
         && Fetched(w, w', fd, Served(f.index, offset))
         && Denotes(w'.mappings, buf', n, f.inode, Served(f.index, offset) * MAX_MMAP_SIZE + offset % MAX_MMAP_SIZE)
         && (!Spoiled(f.index, offset) ==> Denotes(w'.mappings, buf', n, f.inode, offset))
  }

  lemma Widths()
    ensures TWO_64 == 0x1_0000_0000_0000_0000 && TWO_63 == 0x8000_0000_0000_0000
    ensures OPEN_MAX == 1024
  {
  }

  lemma AnswerNothing(w: World, fd: nat, size: nat, offset: nat, buf: nat)
    requires fd < |w.files| && size < TWO_64 && w.files[fd].length < TWO_63
    ensures var length := w.files[fd].length;
            (offset >= length || FlatLength(length, size, offset) <= 0) ==>
              Answered(w, w, fd, size, offset, buf, buf, 0)
    ensures var length := w.files[fd].length;
            offset < length ==>
              FlatLength(length, size, offset) ==
              if length >= (offset + size) % TWO_64 then Signed64(size) else length - offset
  {
  }

  lemma InReachMeans(f: FileState, size: nat, offset: nat)
    requires InReach(f, size, offset)
    ensures size < TWO_64 && f.length < TWO_63
    ensures offset < f.length && FlatLength(f.length, size, offset) > 0 ==> Indexable(f.index, offset)
  {
  }

  lemma AnswerChunk(w: World, w': World, fd: nat, size: nat, offset: nat, buf: nat, buf': nat, n: nat)
    requires WorldOk(w) && WorldOk(w') && fd < OPEN_MAX && size < TWO_64
    requires w.files[fd].valid && offset < w.files[fd].length
    requires FlatLength(w.files[fd].length, size, offset) > 0
    requires n == Min(Room(offset), FlatLength(w.files[fd].length, size, offset))
    requires var k := Served(w.files[fd].index, offset);
             && Fetched(w, w', fd, k)
             && buf' == w'.files[fd].index.chunks[k] + offset % MAX_MMAP_SIZE
    ensures Answered(w, w', fd, size, offset, buf, buf', n)
  {
    hide Represents, Accounted, SessionsApart, MappingsApart, Owned, Served, Spoiled;
    var f, f' := w.files[fd], w'.files[fd];
    var k: nat := Served(f.index, offset);
    assert FileOk(w', f', fd) && FileOk(w, f, fd);
    var base := f'.index.chunks[k];
    assert w'.mappings[base] == Mapping(f.inode, k * MAX_MMAP_SIZE);
    assert Denotes(w'.mappings, buf', n, f.inode, k * MAX_MMAP_SIZE + offset % MAX_MMAP_SIZE);
    UnspoiledServed(w, fd, offset);
  }

  lemma UnspoiledServed(w: World, fd: nat, offset: nat)
    requires fd < |w.files| && FileOk(w, w.files[fd], fd) && w.files[fd].valid
    ensures var ix := w.files[fd].index;
            !Spoiled(ix, offset) ==>
              Served(ix, offset) * MAX_MMAP_SIZE + offset % MAX_MMAP_SIZE == offset
  {
    PowValues();
    var ix := w.files[fd].index;
    if !Spoiled(ix, offset) && Served(ix, offset) != ChunkOf(offset) {
      TruncSmall(ChunkOf(offset));
    }
  }

  lemma AnsweredFits(w: World, w': World, fd: nat, size: nat, offset: nat, buf: nat, buf': nat, n: nat)
    requires Answered(w, w', fd, size, offset, buf, buf', n) && offset < TWO_64
    ensures fd < |w.files| == |w'.files| && offset + n < TWO_64
    ensures w'.files[fd].offset == w.files[fd].offset
    ensures size < TWO_64 && w.files[fd].length < TWO_63
    ensures n == PreadLength(w.files[fd].length, size, offset)
  {
  }

  lemma RepositionBack(w: World, fd: nat, offset: nat)
    requires fd < |w.files|
    ensures var w' := Repositioned(w, fd, offset);
            && Repositioned(w', fd, w.files[fd].offset) == w
            && w' == w.(files := w.files[fd := w.files[fd].(offset := offset)])
  {
    assert w.files[fd := w.files[fd].(offset := offset)][fd := w.files[fd]] == w.files;
  }

  lemma RootFacts(w: World, fd: nat)
    requires WorldOk(w) && fd < OPEN_MAX
    ensures var f := w.files[fd];
            && (f.root == 0 <==> !f.valid)
            && (f.root != 0 ==> f.root in w.mem && Represents(w.mem, f.root, f.index))
            && (!f.valid ==> f.index == NO_INDEX)
  {
    assert FileOk(w, w.files[fd], fd);
    RootIsTable(w, fd);
  }

  lemma OpenedMeans(w: World, fd: nat, length: nat, inode: nat, root: nat)
    requires fd < |w.files|
    ensures var w' := Opened(w, fd, length, inode, root);
            var h := w.files[fd].index.height;
            && w'.mem == w.mem[root := Zeros()] && w'.mappings == w.mappings && w'.touched == w.touched
            && w'.files == w.files[fd := FileState(true, 0, length, root, inode, w.sessions,
                                                   Index(h, map[Coord(h, 0) := root], map[]))]
  {
  }

  lemma ClosedMeans(w: World, fd: nat)
    requires fd < |w.files|
    ensures var w' := Closed(w, fd);
            && w'.mem == w.mem - Freed(w.files[fd].index)
            && w'.mappings == w.mappings && w'.touched == w.touched
            && w'.files == w.files[fd := w.files[fd].(valid := false, root := 0, index := NO_INDEX)]
            && NO_INDEX.height == 0
  {
  }

  /** One completed call. A read carries the position it read at and what it returned. */
  datatype Event =
    | Read1Event(fd: nat, size: nat, offset: nat, buf0: nat, buf: nat, n: nat)
    | Pread1Event(fd: nat, size: nat, offset: nat, buf0: nat, buf: nat, n: nat)
    | SeekEvent(fd: nat, position: nat)
    | OpenEvent(fd: nat, length: nat, inode: nat, root: nat)
    | CloseEvent(fd: nat)
  {
    predicate IsRead() {
      Read1Event? || Pread1Event?
    }
  }

  /** The effect of one call. read1 reads at the position and moves it past what it returns; its
      other effects are told with the position put back. */
  ghost predicate Next(w: World, e: Event, w': World) {
    && |w.files| == |w'.files| && e.fd < |w.files|
    && match e
       case Read1Event(fd, size, offset, buf0, buf, n) =>
         && w.files[fd].valid && w.files[fd].offset == offset && w'.files[fd].offset == offset + n
         && Answered(w, Repositioned(w', fd, offset), fd, size, offset, buf0, buf, n)
       case Pread1Event(fd, size, offset, buf0, buf, n) =>
         w.files[fd].valid && Answered(w, w', fd, size, offset, buf0, buf, n)
       case SeekEvent(fd, position) => w' == Repositioned(w, fd, position)
       case OpenEvent(fd, length, inode, root) => w' == Opened(w, fd, length, inode, root)
       case CloseEvent(fd) => w' == Closed(w, fd)
  }

  lemma ReadIsNext(w: World, w': World, fd: nat, size: nat, offset: nat, buf: nat, buf': nat, n: nat)
    requires fd < |w.files| == |w'.files|
    requires w.files[fd].valid && w.files[fd].offset == offset && w'.files[fd].offset == offset + n
    requires Answered(w, Repositioned(w', fd, offset), fd, size, offset, buf, buf', n)
    ensures Next(w, Read1Event(fd, size, offset, buf, buf', n), w')
  {
    hide Answered;
  }

  lemma PreadIsNext(w: World, w': World, fd: nat, size: nat, offset: nat, buf: nat, buf': nat, n: nat)
    requires fd < |w.files| == |w'.files| && w.files[fd].valid
    requires Answered(w, w', fd, size, offset, buf, buf', n)
    ensures Next(w, Pread1Event(fd, size, offset, buf, buf', n), w')
  {
    hide Answered;
  }

  lemma ChangeIsNext(w: World, w': World, e: Event)
    requires e.fd < |w.files| && (e.SeekEvent? || e.OpenEvent? || e.CloseEvent?)
    requires match e
             case SeekEvent(fd, position) => w' == Repositioned(w, fd, position)
             case OpenEvent(fd, length, inode, root) => w' == Opened(w, fd, length, inode, root)
             case CloseEvent(fd) => w' == Closed(w, fd)
    ensures Next(w, e, w')
  {
    hide Freed, Tables;
  }

  /** init_file: a cleared root table, newly allocated if the descriptor had none. */
  method InitFile(heap: CHeap, nvf: NVFile)
    requires heap.Valid() && nvf !in heap.repr && (nvf.root != 0 ==> nvf.root in heap.mem)
    modifies heap.repr, nvf`root
    ensures heap.Valid() && fresh(heap.repr - old(heap.repr))
    ensures nvf.root != 0 && heap.mem == old(heap.mem)[nvf.root := Zeros()]
    ensures if old(nvf.root) == 0 then nvf.root !in old(heap.mem) else nvf.root == old(nvf.root)
  {
    hide *;
    if nvf.root == 0 {
      nvf.root := heap.Malloc();
    }
    heap.ZeroTable(nvf.root);
  }

  /** The part of open1 that fills in the descriptor's fields. */
  method ResetFile(heap: CHeap, nvf: NVFile, length: nat, ghost inode: nat, ghost session: nat)
    requires heap.Valid() && nvf !in heap.repr && (nvf.root != 0 ==> nvf.root in heap.mem)
    modifies heap.repr, nvf
    ensures heap.Valid() && fresh(heap.repr - old(heap.repr))
    ensures nvf.root != 0 && heap.mem == old(heap.mem)[nvf.root := Zeros()]
    ensures if old(nvf.root) == 0 then nvf.root !in old(heap.mem) else nvf.root == old(nvf.root)
    ensures nvf.valid && nvf.offset == 0 && nvf.length == length && nvf.height == old(nvf.height)
    ensures nvf.inode == inode && nvf.session == session
    ensures nvf.index == Index(nvf.height, map[Coord(nvf.height, 0) := nvf.root], map[])
  {
    hide *;
    nvf.length := length;
    nvf.valid := true;
    nvf.offset := 0;
    InitFile(heap, nvf);
    nvf.inode, nvf.session := inode, session;
    nvf.index := Index(nvf.height, map[Coord(nvf.height, 0) := nvf.root], map[]);
  }

  /** free_file, on an open or a never-opened descriptor. */
  method FreeFile(heap: CHeap, nvf: NVFile)
    requires heap.Valid() && nvf !in heap.repr && nvf.height == nvf.index.height
    requires if nvf.root == 0 then nvf.index == NO_INDEX
             else Represents(heap.mem, nvf.root, nvf.index)
    modifies heap.repr, nvf`root, nvf`height
    ensures heap.Valid() && fresh(heap.repr - old(heap.repr))
    ensures heap.mem == old(heap.mem) - Freed(nvf.index)
    ensures nvf.root == 0 && nvf.height == 0
  {
    hide *;
    var height, root := nvf.height, nvf.root;
    ghost var ix, m := nvf.index, heap.mem;
    ghost var top := Coord(ix.height, 0);
    if root == 0 {
      NothingFreed();
    } else {
      RootIntact(heap.mem, root, ix);
      FreedIs(ix);
    }
    FreeBtree(heap, root, height, ix, top);
    nvf.height := 0;
    if nvf.root != 0 && height == 0 {
      heap.Free(nvf.root);
    }
    nvf.root := 0;
  }

  lemma NothingFreed()
    ensures NO_INDEX.height == 0 && Freed(NO_INDEX) == {} && Inner(NO_INDEX, Coord(0, 0)) == {}
  {
  }

  method ZeroedFiles() returns (files: array<NVFile>)
    ensures fresh(files) && files.Length == OPEN_MAX
    ensures forall i: nat | i < OPEN_MAX :: fresh(files[i]) && files[i] as object != files
    ensures forall i: nat, j: nat | i < j < OPEN_MAX :: files[i] != files[j]
    ensures forall i: nat | i < OPEN_MAX ::
              files[i].View() == FileState(false, 0, 0, 0, 0, 0, NO_INDEX) && files[i].height == 0
  {
    var first := new NVFile();
    files := new NVFile[OPEN_MAX](_ => first);
    var i: nat := 0;
    while i < OPEN_MAX
      invariant i <= OPEN_MAX
      invariant forall j: nat | j < OPEN_MAX :: fresh(files[j]) && files[j] as object != files
      invariant forall j: nat, k: nat | j < k < i :: files[j] != files[k]
      invariant forall j: nat | j < i ::
                  files[j].View() == FileState(false, 0, 0, 0, 0, 0, NO_INDEX) && files[j].height == 0
    {
      files[i] := new NVFile();
      i := i + 1;
    }
  }

  class FileLib {
    const heap: CHeap
    const fdLookup: array<NVFile>
    var hitCount: nat
    var mmapCount: nat
    var nextMap: nat
    ghost var mappings: Mappings
    ghost var calls: nat
    ghost var world: World
    ghost var repr: set<object>

    ghost predicate ObjectsOk()
      reads this, repr
    {
      && {this, heap, fdLookup} <= repr && heap.repr <= repr
      && this !in heap.repr && fdLookup !in heap.repr && heap.Valid()
      && fdLookup.Length == OPEN_MAX
      && (forall i: nat | i < OPEN_MAX ::
            fdLookup[i] in repr && fdLookup[i] !in heap.repr && fdLookup[i] as object != this)
      && (forall i: nat, j: nat | i < j < OPEN_MAX :: fdLookup[i] != fdLookup[j])
    }

    /** `world` is what the fields say. */
    ghost predicate Tied()
      requires ObjectsOk()
      reads this, repr
    {
      && world.mem == heap.mem && world.mappings == mappings && |world.files| == OPEN_MAX
      && (forall i: nat | i < OPEN_MAX ::
            world.files[i] == fdLookup[i].View() && fdLookup[i].height == fdLookup[i].index.height)
    }

    ghost predicate Counted()
      reads this
    {
      && hitCount + mmapCount == calls && mmapCount == |world.touched| == |world.mappings|
      && nextMap > 0 && forall b | b in mappings :: b + MAX_MMAP_SIZE <= nextMap
    }

    ghost predicate Valid()
      reads this, repr
      ensures Valid() ==> |world.files| == OPEN_MAX
    {
      ObjectsOk() && Tied() && Counted() && WorldOk(world)
    }

    /** The library constructor: calloc of the descriptor table. */
    constructor ()
      ensures Valid() && fresh(repr)
      ensures hitCount == 0 && mmapCount == 0 && world.mappings == map[] && world.leaked == {}
      ensures forall i: nat | i < OPEN_MAX :: world.files[i] == FileState(false, 0, 0, 0, 0, 0, NO_INDEX)
    {
      hide CHeap.Valid, WorldOk, NewWorld;
      var files := ZeroedFiles();
      fdLookup := files;
      heap := new CHeap();
      hitCount, mmapCount, nextMap, mappings, calls := 0, 0, 1, map[], 0;
      world := NewWorld();
      new;
      NothingOpen();
      repr := {this, heap, fdLookup} + heap.repr + (set i: nat | i < OPEN_MAX :: fdLookup[i] as object);
    }

    /** mmap of MAX_MMAP_SIZE bytes of descriptor `fd` from `start`, assumed to succeed: a nonzero
        range apart from all live mappings, showing that part of the file behind the descriptor. */
    method Mmap(fd: nat, start: nat) returns (base: nat)
      requires fd < fdLookup.Length
      requires nextMap > 0 && forall b | b in mappings :: b + MAX_MMAP_SIZE <= nextMap
      modifies this`nextMap, this`mappings
      ensures base != 0 && base !in old(mappings)
      ensures mappings == old(mappings)[base := Mapping(fdLookup[fd].inode, start)]
      ensures nextMap > 0 && forall b | b in mappings :: b + MAX_MMAP_SIZE <= nextMap
      ensures forall b | b in old(mappings) :: b + MAX_MMAP_SIZE <= base || base + MAX_MMAP_SIZE <= b
    {
      base := nextMap;
      nextMap := nextMap + MAX_MMAP_SIZE;
      mappings := mappings[base := Mapping(fdLookup[fd].inode, start)];
    }

    /** What the invariant says about one open descriptor. */
    lemma OpenFileFacts(fd: nat)
      requires Valid() && fd < OPEN_MAX
      ensures var nvf, f := fdLookup[fd], world.files[fd];
              && heap in repr && heap.repr <= repr && this in repr && nvf in repr
              && nvf !in heap.repr && this !in heap.repr && heap.Valid()
              && fdLookup.Length == OPEN_MAX && fdLookup in repr && fdLookup !in heap.repr
              && (forall i: nat | i < OPEN_MAX && i != fd ::
                    fdLookup[i] != nvf && fdLookup[i] as object != this && fdLookup[i] !in heap.repr)
              && WorldOk(world) && MappingsApart(mappings) && world.mappings == mappings
              && world.mem == heap.mem && nvf.height == f.index.height
              && f == FileState(nvf.valid, nvf.offset, nvf.length, nvf.root,
                                nvf.inode, nvf.session, nvf.index)
              && f.offset < TWO_64 && f.length < TWO_63
              && nextMap > 0 && (forall b | b in mappings :: b + MAX_MMAP_SIZE <= nextMap)
              && hitCount + mmapCount == calls && mmapCount == |world.touched| == |world.mappings|
              && (f.valid ==> Represents(heap.mem, nvf.root, nvf.index))
    {
      assert FileOk(world, world.files[fd], fd);
    }

    /** The invariant survives when one descriptor and the heap have moved on to a good state. */
    twostate lemma Restored(fd: nat)
      requires old(Valid()) && fd < OPEN_MAX && fdLookup.Length == OPEN_MAX
      requires heap.Valid() && fresh(heap.repr - old(heap.repr)) && repr == old(repr) + heap.repr
      requires unchanged(fdLookup)
      requires forall i: nat | i < OPEN_MAX && i != fd :: unchanged(fdLookup[i])
      requires var nvf := fdLookup[fd];
               && nvf.height == nvf.index.height
               && world.files == old(world).files[fd := FileState(
                    nvf.valid, nvf.offset, nvf.length, nvf.root, nvf.inode, nvf.session, nvf.index)]
      requires world.mem == heap.mem && world.mappings == mappings && WorldOk(world)
      requires hitCount + mmapCount == calls && mmapCount == |world.touched| == |world.mappings|
      requires nextMap > 0 && forall b | b in mappings :: b + MAX_MMAP_SIZE <= nextMap
      ensures Valid()
    {
      hide WorldOk, CHeap.Valid;
    }

    /** The not_found part: map the chunk, grow the tree, insert. */
    method MapChunk(fd: nat, offset: nat) returns (startAddr: nat)
      requires Valid() && fd < OPEN_MAX && world.files[fd].valid && offset < TWO_63
      requires ChunkOf(offset) !in world.files[fd].index.chunks
      modifies repr - {fdLookup}
      ensures Valid() && fresh(repr - old(repr))
      ensures Fetched(old(world), world, fd, ChunkOf(offset)) && world != old(world)
      ensures startAddr == world.files[fd].index.chunks[ChunkOf(offset)]
      ensures mmapCount == old(mmapCount) + 1 && hitCount == old(hitCount) && calls == old(calls) + 1
    {
      hide *;
      OpenFileFacts(fd);
      var nvf := fdLookup[fd];
      ghost var f, w, k := world.files[fd], world, ChunkOf(offset);
      Aligned(offset);
      var startOffset := AlignDown(offset);
      startAddr := Mmap(fd, startOffset);
      mmapCount := mmapCount + 1;
      calls := calls + 1;
      InsertChunk(heap, nvf, offset, startAddr);
      ghost var root: nat, ix := nvf.root, nvf.index;
      MissOk(w, fd, offset, startAddr, heap.mem, root, ix);
      world := Faulted(w, fd, k, startAddr, heap.mem, root, ix);
      repr := repr + heap.repr;
      Restored(fd);
    }

    /** get_mmap_address. A hit changes nothing but a counter; a miss maps the chunk and adds
        exactly that key to the chunk map. The chunk served is the one asked for unless the index
        was truncated (see `WalkExact`). */
    method GetMmapAddress(fd: nat, offset: nat, length: nat) returns (buf: nat, result: nat)
      requires Valid() && fd < OPEN_MAX && world.files[fd].valid && offset < TWO_63
      requires Indexable(world.files[fd].index, offset)
      modifies repr - {fdLookup}
      ensures Valid() && fresh(repr - old(repr))
      ensures result == Min(Room(offset), length)
      ensures var k := Served(old(world).files[fd].index, offset);
              && Fetched(old(world), world, fd, k)
              && buf == world.files[fd].index.chunks[k] + offset % MAX_MMAP_SIZE
              && hitCount == old(hitCount) + (if world == old(world) then 1 else 0)
              && mmapCount == old(mmapCount) + (if world == old(world) then 0 else 1)
              && calls == old(calls) + 1
    {
      hide *;
      OpenFileFacts(fd);
      IndexableMeans(world.files[fd].index, offset);
      var nvf := fdLookup[fd];
      var found, startAddr := Descend(heap, nvf.root, nvf.height, offset, nvf.index);
      DescentMeaning(heap.mem, nvf.root, nvf.index, offset, found, startAddr);
      if found {
        hitCount := hitCount + 1;
        calls := calls + 1;
        FetchedHit(world, fd, Served(nvf.index, offset));
        Restored(fd);
      } else {
        startAddr := MapChunk(fd, offset);
      }
      RoomMeans(offset, length);
      buf := startAddr + offset % MAX_MMAP_SIZE;
      result := MAX_MMAP_SIZE - offset % MAX_MMAP_SIZE;
      if result > length {
        result := length;
      }
    }

    /** do_pread. `offset` is the file position as the unsigned value C compares. */
    method DoPread(fd: nat, buf: nat, size: nat, offset: nat) returns (buf': nat, result: nat)
      requires Valid() && fd < OPEN_MAX && world.files[fd].valid
      requires size < TWO_64 && offset < TWO_64
      requires InReach(world.files[fd], size, offset)
      modifies repr - {fdLookup}
      ensures Valid() && fresh(repr - old(repr))
      ensures Answered(old(world), world, fd, size, offset, buf, buf', result)
      ensures hitCount + mmapCount == old(hitCount + mmapCount) + (if result > 0 then 1 else 0)
      ensures mmapCount + |old(world).touched| == old(mmapCount) + |world.touched|
    {
      hide *;
      OpenFileFacts(fd);
      var nvf := fdLookup[fd];
      AnswerNothing(world, fd, size, offset, buf);
      InReachMeans(world.files[fd], size, offset);
      Widths();
      if offset >= nvf.length {
        return buf, 0;
      }
      var length := if nvf.length >= (offset + size) % TWO_64 then Signed64(size) else nvf.length - offset;
      if length <= 0 {
        return buf, 0;
      }
      ghost var w := world;
      RoomMeans(offset, length);
      buf', result := GetMmapAddress(fd, offset, length);
      OpenFileFacts(fd);
      AnswerChunk(w, world, fd, size, offset, buf, buf', result);
    }

    /** read1: what do_pread does at the file position, which then moves past the bytes read. */
    method Read1(fd: nat, buf: nat, size: nat) returns (buf': nat, length: nat)
      requires Valid() && fd < OPEN_MAX && world.files[fd].valid && size < TWO_64
      requires InReach(world.files[fd], size, world.files[fd].offset)
      modifies repr - {fdLookup}
      ensures Valid() && fresh(repr - old(repr))
      ensures var offset := old(world).files[fd].offset;
              && world.files[fd].offset == offset + length
              && length == PreadLength(old(world).files[fd].length, size, offset)
              && Next(old(world), Read1Event(fd, size, offset, buf, buf', length), world)
      ensures hitCount + mmapCount == old(hitCount + mmapCount) + (if length > 0 then 1 else 0)
      ensures mmapCount + |old(world).touched| == old(mmapCount) + |world.touched|
    {
      hide *;
      OpenFileFacts(fd);
      var nvf := fdLookup[fd];
      ghost var w, offset := world, nvf.offset;
      buf', length := DoPread(fd, buf, size, nvf.offset);
      OpenFileFacts(fd);
      AnsweredFits(w, world, fd, size, offset, buf, buf', length);
      ghost var mid := world;
      label before:
      nvf.offset := nvf.offset + length;
      world := Repositioned(world, fd, nvf.offset);
      RepositionOk(mid, fd, nvf.offset);
      RepositionBack(mid, fd, nvf.offset);
      ReadIsNext(w, world, fd, size, offset, buf, buf', length);
      Restored@before(fd);
    }

    /** pread1: the position is given by the caller and the file's own stays. */
    method Pread1(fd: nat, buf: nat, size: nat, offset: int) returns (buf': nat, length: nat)
      requires Valid() && fd < OPEN_MAX && world.files[fd].valid && size < TWO_64
      requires IsOff(offset)
      requires InReach(world.files[fd], size, offset % TWO_64)
      modifies repr - {fdLookup}
      ensures Valid() && fresh(repr - old(repr))
      ensures Next(old(world), Pread1Event(fd, size, offset % TWO_64, buf, buf', length), world)
      ensures world.files[fd].offset == old(world).files[fd].offset
      ensures hitCount + mmapCount == old(hitCount + mmapCount) + (if length > 0 then 1 else 0)
      ensures mmapCount + |old(world).touched| == old(mmapCount) + |world.touched|
    {
      hide *;
      Widths();
      buf', length := DoPread(fd, buf, size, offset % TWO_64);
      AnsweredFits(old(world), world, fd, size, offset % TWO_64, buf, buf', length);
      PreadIsNext(old(world), world, fd, size, offset % TWO_64, buf, buf', length);
    }

    /** lseek1, with the position kept modulo 2^64. */
    method Lseek1(fd: nat, offset: int, whence: Whence) returns (r: int)
      requires Valid() && fd < OPEN_MAX && IsOff(offset)
      modifies repr - {fdLookup}
      ensures Valid() && repr == old(repr)
      ensures var f := old(world).files[fd];
              var p := match whence
                       case SeekSet => offset % TWO_64
                       case SeekCur => (f.offset + offset) % TWO_64
                       case SeekEnd => (f.length + offset) % TWO_64
                       case OtherWhence => f.offset;
              Next(old(world), SeekEvent(fd, p), world) && world.files[fd].offset == p && p < TWO_64
              && -0x8000_0000_0000_0000 <= r < 0x8000_0000_0000_0000
              && (p - r) % 0x1_0000_0000_0000_0000 == 0
      ensures hitCount == old(hitCount) && mmapCount == old(mmapCount)
    {
      hide *;
      Widths();
      OpenFileFacts(fd);
      var nvf := fdLookup[fd];
      match whence {
        case SeekSet => nvf.offset := offset % TWO_64;
        case SeekCur => nvf.offset := (nvf.offset + offset) % TWO_64;
        case SeekEnd => nvf.offset := (nvf.length + offset) % TWO_64;
        case OtherWhence =>
      }
      r := Signed64(nvf.offset);
      SignedCongruent(nvf.offset);
      RepositionOk(world, fd, nvf.offset);
      RepositionBack(world, fd, nvf.offset);
      world := Repositioned(world, fd, nvf.offset);
      ChangeIsNext(old(world), world, SeekEvent(fd, nvf.offset));
      Restored(fd);
    }

    /** open1 for the descriptor, inode and size the kernel reports: position 0 and an empty chunk
        map, whatever the descriptor held before. */
    method Open1(fd: nat, length: nat, ghost inode: nat) returns (r: nat)
      requires Valid() && fd < OPEN_MAX && length < TWO_63
      modifies repr - {fdLookup}
      ensures Valid() && fresh(repr - old(repr)) && r == fd
      ensures Next(old(world), OpenEvent(fd, length, inode, world.files[fd].root), world)
      ensures world.files[fd].valid && world.files[fd].index.chunks == map[]
      ensures world.files[fd].offset == 0 && world.files[fd].length == length
      ensures hitCount == old(hitCount) && mmapCount == old(mmapCount)
    {
      hide *;
      OpenFileFacts(fd);
      RootFacts(world, fd);
      Widths();
      var nvf := fdLookup[fd];
      ghost var w := world;
      ResetFile(heap, nvf, length, inode, w.sessions);
      world := Opened(w, fd, length, inode, nvf.root);
      repr := repr + heap.repr;
      OpenOk(w, fd, length, inode, nvf.root);
      OpenedMeans(w, fd, length, inode, nvf.root);
      ChangeIsNext(w, world, OpenEvent(fd, length, inode, nvf.root));
      Restored(fd);
      return fd;
    }

    /** close1: the tree is freed above its leaves; mappings, and so every pointer a read has
        returned, stay. */
    method Close1(fd: nat) returns (r: nat)
      requires Valid() && fd < OPEN_MAX
      modifies repr - {fdLookup}
      ensures Valid() && fresh(repr - old(repr)) && r == 0
      ensures Next(old(world), CloseEvent(fd), world)
      ensures hitCount == old(hitCount) && mmapCount == old(mmapCount)
    {
      hide *;
      OpenFileFacts(fd);
      RootFacts(world, fd);
      var nvf := fdLookup[fd];
      ghost var w := world;
      nvf.valid := false;
      FreeFile(heap, nvf);
      nvf.index := NO_INDEX;
      world := Closed(w, fd);
      repr := repr + heap.repr;
      CloseOk(w, fd);
      ClosedMeans(w, fd);
      ChangeIsNext(w, world, CloseEvent(fd));
      Restored(fd);
      return 0;
    }
  }
}
