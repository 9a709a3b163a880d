/** The slices of the file that the worker threads read, and one worker's transfer through read1
    (pthread_test_noposix.c, lines 79-126; pthread_test.c, lines 66-97). */
module Slices {
  import opened Basics
  import opened Capacity
  import opened RadixIndex
  import opened OpenFiles
  import opened FlatFile
  import opened FileOps
  import opened FileRuns

  function StartOffset(fileSize: nat, threads: nat, pid: nat): nat
    requires threads > 0
  {
    fileSize / threads * pid
  }

  function Count(fileSize: nat, threads: nat, size: nat): nat
    requires threads > 0 && size > 0
  {
    DivMul(fileSize, threads, size);
    fileSize / (threads * size)
  }

  /** The first slice starts the file, and each starts a share after the one before. */
  lemma StartsAre(fileSize: nat, threads: nat, pid: nat)
    requires threads > 0
    ensures StartOffset(fileSize, threads, 0) == 0
    ensures StartOffset(fileSize, threads, pid + 1) == StartOffset(fileSize, threads, pid) + fileSize / threads
  {
    var share := fileSize / threads;
    assert share * (pid + 1) == share * pid + share;
  }

  /** What one worker touches fits its share of the file. */
  lemma SliceFitsShare(fileSize: nat, threads: nat, size: nat)
    requires threads > 0 && size > 0
    ensures Count(fileSize, threads, size) * size <= fileSize / threads
  {
    DivMul(fileSize, threads, size);
    var share := fileSize / threads;
    assert Count(fileSize, threads, size) == share / size;
    assert share == (share / size) * size + share % size;
  }

  /** Slices of different workers do not overlap, and all lie in the file. */
  lemma SlicesApart(fileSize: nat, threads: nat, size: nat, i: nat, j: nat)
    requires threads > 0 && size > 0 && i < j < threads
    ensures StartOffset(fileSize, threads, i) + Count(fileSize, threads, size) * size
            <= StartOffset(fileSize, threads, j)
  {
    var share := fileSize / threads;
    SliceFitsShare(fileSize, threads, size);
    Apart(share, i, j);
  }

  lemma SliceInFile(fileSize: nat, threads: nat, size: nat, pid: nat)
    requires threads > 0 && size > 0 && pid < threads
    ensures StartOffset(fileSize, threads, pid) + Count(fileSize, threads, size) * size <= fileSize
  {
    var share := fileSize / threads;
    SliceFitsShare(fileSize, threads, size);
    Apart(share, pid, threads);
    assert fileSize == share * threads + fileSize % threads;
  }

  /** The `n` bytes from `lo` on. */
  function Range(lo: nat, n: nat): (r: set<nat>)
    ensures |r| == n && forall b: nat :: b in r <==> lo <= b < lo + n
  {
    if n == 0 then {} else Range(lo, n - 1) + {lo + n - 1}
  }

  /** The slice of worker `pid`. */
  function Slice(fileSize: nat, threads: nat, size: nat, pid: nat): set<nat>
    requires threads > 0 && size > 0
  {
    Range(StartOffset(fileSize, threads, pid), Count(fileSize, threads, size) * size)
  }

  lemma SliceFacts(fileSize: nat, threads: nat, size: nat, i: nat, j: nat)
    requires threads > 0 && size > 0 && i < threads && j < threads
    ensures |Slice(fileSize, threads, size, i)| == Count(fileSize, threads, size) * size
    ensures forall b | b in Slice(fileSize, threads, size, i) :: b < fileSize
    ensures i != j ==> Slice(fileSize, threads, size, i) !! Slice(fileSize, threads, size, j)
  {
    SliceInFile(fileSize, threads, size, i);
    if i < j { SlicesApart(fileSize, threads, size, i, j); }
    if j < i { SlicesApart(fileSize, threads, size, j, i); }
  }

  function Slices(fileSize: nat, threads: nat, size: nat): (r: seq<set<nat>>)
    requires threads > 0 && size > 0
    ensures |r| == threads
  {
    seq(threads, pid requires 0 <= pid < threads => Slice(fileSize, threads, size, pid))
  }

  function Union(sets: seq<set<nat>>): set<nat> {
    if sets == [] then {} else sets[0] + Union(sets[1..])
  }

  lemma {:induction false} UnionMembers(sets: seq<set<nat>>, b: nat)
    ensures b in Union(sets) <==> exists i: nat :: i < |sets| && b in sets[i]
  {
    if sets != [] {
      UnionMembers(sets[1..], b);
      if b in Union(sets[1..]) {
        var i: nat :| i < |sets[1..]| && b in sets[1..][i];
        assert b in sets[i + 1];
      }
      if i: nat :| i < |sets| && b in sets[i] {
        if i > 0 { assert b in sets[1..][i - 1]; }
      }
    }
  }

  /** The sizes of sets that are apart add up. */
  lemma {:induction false} UnionSize(sets: seq<set<nat>>, len: nat)
    requires forall i: nat | i < |sets| :: |sets[i]| == len
    requires forall i: nat, j: nat | i < j < |sets| :: sets[i] !! sets[j]
    ensures |Union(sets)| == |sets| * len
  {
    if sets != [] {
      UnionSize(sets[1..], len);
      forall b | b in Union(sets[1..]) ensures b !in sets[0] {
        UnionMembers(sets[1..], b);
      }
      assert sets[0] !! Union(sets[1..]);
      assert |sets| * len == (|sets| - 1) * len + len;
    }
  }

  /** The bytes of the file that are in no worker's slice. */
  function Untouched(fileSize: nat, threads: nat, size: nat): set<nat>
    requires threads > 0 && size > 0
  {
    set b | b in Indices(fileSize) && forall pid: nat | pid < threads :: b !in Slice(fileSize, threads, size, pid)
  }

  lemma UntouchedIsRest(fileSize: nat, threads: nat, size: nat)
    requires threads > 0 && size > 0
    ensures Union(Slices(fileSize, threads, size)) <= Indices(fileSize)
    ensures Untouched(fileSize, threads, size) == Indices(fileSize) - Union(Slices(fileSize, threads, size))
  {
    hide Slice;
    var sets := Slices(fileSize, threads, size);
    forall b: nat
      ensures b in Union(sets) <==> exists pid: nat :: pid < threads && b in Slice(fileSize, threads, size, pid)
    {
      UnionMembers(sets, b);
      assert forall pid: nat | pid < threads :: sets[pid] == Slice(fileSize, threads, size, pid);
    }
    forall b | b in Union(sets) ensures b in Indices(fileSize) {
      var pid: nat :| pid < threads && b in Slice(fileSize, threads, size, pid);
      SliceFacts(fileSize, threads, size, pid, pid);
    }
  }

  /** Exactly fileSize mod (threads * size) bytes of the file are in no slice. */
  lemma UntouchedSize(fileSize: nat, threads: nat, size: nat)
    requires threads > 0 && size > 0
    ensures threads * size > 0
    ensures |Untouched(fileSize, threads, size)| == fileSize % (threads * size)
  {
    hide Count, Slice, Untouched, Union;
    var sets := Slices(fileSize, threads, size);
    forall i: nat | i < threads ensures |sets[i]| == Count(fileSize, threads, size) * size {
      SliceFacts(fileSize, threads, size, i, i);
    }
    forall i: nat, j: nat | i < j < threads ensures sets[i] !! sets[j] {
      SliceFacts(fileSize, threads, size, i, j);
    }
    UnionSize(sets, Count(fileSize, threads, size) * size);
    UntouchedIsRest(fileSize, threads, size);
    assert Indices(fileSize) == Union(sets) + Untouched(fileSize, threads, size);
    Remainder(fileSize, threads, size);
  }

  lemma Remainder(fileSize: nat, threads: nat, size: nat)
    requires threads > 0 && size > 0
    ensures threads * size > 0
    ensures fileSize - threads * (Count(fileSize, threads, size) * size) == fileSize % (threads * size)
  {
    DivMul(fileSize, threads, size);
    var c := Count(fileSize, threads, size);
    assert threads * (c * size) == (threads * size) * c;
    assert fileSize == (threads * size) * c + fileSize % (threads * size);
  }

  /** An aligned request never crosses a chunk boundary and is answered in full. */
  lemma AlignedReadFull(length: nat, size: nat, offset: nat)
    requires 0 < size && MAX_MMAP_SIZE % size == 0 && offset % size == 0
    requires offset + size <= length < TWO_63
    ensures size < TWO_64 && PreadLength(length, size, offset) == size
  {
    var q := MAX_MMAP_SIZE / size;
    assert MAX_MMAP_SIZE == size * q;
    assert q > 0;
    DivMul(offset, size, q);
    var r := offset % MAX_MMAP_SIZE;
    assert r % size == 0;
    assert r == size * (r / size);
    AlignedRoom(size, q, r / size);
  }

  lemma AlignedRoom(size: nat, q: nat, k: nat)
    requires size * k < size * q
    ensures size * k + size <= size * q
  {
    if k < q {
      Apart(size, k, q);
    } else if q < k {
      Apart(size, q, k);
    }
  }

  lemma NextAligned(size: nat, offset: nat)
    requires size > 0 && offset % size == 0
    ensures (offset + size) % size == 0
  {
    var k := offset / size;
    assert offset == k * size;
    DivUnique(offset + size, size, k + 1, 0);
  }

  /** What one read of an open file of at most 2^52 bytes leaves behind: the file as it was but for the
      position, all mappings, and a pointer to the bytes asked for. */
  lemma ReadLeaves(w: World, w': World, e: Event)
    requires WorldOk(w) && Next(w, e, w') && e.IsRead() && e.fd < |w.files| && w.files[e.fd].length <= TWO_52
    ensures e.fd < |w'.files|
    ensures var f, f' := w.files[e.fd], w'.files[e.fd];
            && f'.valid && f'.length == f.length && f'.inode == f.inode
            && f'.offset == (if e.Read1Event? then f.offset + e.n else f.offset)
    ensures Keeps(w.mappings, w'.mappings)
    ensures e.n > 0 ==> Denotes(w'.mappings, e.buf, e.n, w.files[e.fd].inode, e.offset)
  {
    NextKeeps(w, e, w');
    ReadEventFacts(w, e, w');
    NextSeenFrom(w, e, w', e.fd);
    if e.n > 0 {
      ReadWithin(w, e, w');
      SmallFilesSafe(w, e.fd, e.size, e.offset);
      ReadShows(w, e, w');
    }
  }

  lemma ReadWithin(w: World, e: Event, w': World)
    requires Next(w, e, w') && e.IsRead() && e.n > 0 && e.fd < |w.files|
    ensures e.size < TWO_64 && e.offset < w.files[e.fd].length
  {
    hide Denotes, Fetched;
  }

  lemma ReadShows(w: World, e: Event, w': World)
    requires Next(w, e, w') && e.IsRead() && e.n > 0 && e.fd < |w.files|
    requires !Spoiled(w.files[e.fd].index, e.offset)
    ensures Denotes(w'.mappings, e.buf, e.n, w.files[e.fd].inode, e.offset)
  {
    hide Denotes, Fetched, Spoiled;
  }

  /** Record `i` of a slice is shown by the i-th pointer. */
  ghost predicate Shown(m: Mappings, ptrs: seq<nat>, size: nat, inode: nat, start: nat) {
    forall i: nat | i < |ptrs| :: Denotes(m, ptrs[i], size, inode, start + i * size)
  }

  lemma ShownNext(m: Mappings, m': Mappings, ptrs: seq<nat>, size: nat, inode: nat, start: nat, p: nat)
    requires Shown(m, ptrs, size, inode, start) && Keeps(m, m')
    requires Denotes(m', p, size, inode, start + |ptrs| * size)
    ensures Shown(m', ptrs + [p], size, inode, start)
  {
    forall i: nat | i < |ptrs + [p]| ensures Denotes(m', (ptrs + [p])[i], size, inode, start + i * size) {
      if i < |ptrs| { DenotesStays(m, m', ptrs[i], size, inode, start + i * size); }
    }
  }

  lemma ShownNone(m: Mappings, size: nat, inode: nat, start: nat)
    ensures Shown(m, [], size, inode, start)
  {
  }

  /** One aligned read1 inside a small file is answered in full. */
  method ReadRecord(lib: FileLib, fd: nat, buf: nat, size: nat) returns (buf': nat, n: nat)
    requires lib.Valid() && fd < OPEN_MAX && lib.world.files[fd].valid
    requires 0 < size && MAX_MMAP_SIZE % size == 0 && lib.world.files[fd].offset % size == 0
    requires lib.world.files[fd].offset + size <= lib.world.files[fd].length <= TWO_52
    modifies lib.repr - {lib.fdLookup}
    ensures lib.Valid() && fresh(lib.repr - old(lib.repr)) && n == size
    ensures var f, f' := old(lib.world).files[fd], lib.world.files[fd];
            && f'.offset == f.offset + size
            && f'.valid && f'.length == f.length && f'.inode == f.inode
            && Keeps(old(lib.world).mappings, lib.world.mappings)
            && Denotes(lib.world.mappings, buf', size, f.inode, f.offset)
  {
    hide *;
    ghost var w := lib.world;
    ghost var offset, length := w.files[fd].offset, w.files[fd].length;
    ValidWorld(lib);
    SmallStart(length, offset);
    AlignedReadFull(length, size, offset);
    SmallFilesSafe(w, fd, size, offset);
    buf', n := lib.Read1(fd, buf, size);
    Read1IsRead(fd, size, offset, buf, buf', n);
    ReadLeaves(w, lib.world, Read1Event(fd, size, offset, buf, buf', n));
  }

  /** One aligned pread1 inside a small file is answered in full. */
  method PreadRecord(lib: FileLib, fd: nat, buf: nat, size: nat, offset: nat) returns (buf': nat, n: nat)
    requires lib.Valid() && fd < OPEN_MAX && lib.world.files[fd].valid
    requires 0 < size && MAX_MMAP_SIZE % size == 0 && offset % size == 0
    requires offset + size <= lib.world.files[fd].length <= TWO_52
    modifies lib.repr - {lib.fdLookup}
    ensures lib.Valid() && fresh(lib.repr - old(lib.repr)) && n == size
    ensures var f, f' := old(lib.world).files[fd], lib.world.files[fd];
            && f'.offset == f.offset
            && f'.valid && f'.length == f.length && f'.inode == f.inode
            && Keeps(old(lib.world).mappings, lib.world.mappings)
            && Denotes(lib.world.mappings, buf', size, f.inode, offset)
  {
    hide *;
    ghost var w := lib.world;
    ValidWorld(lib);
    SmallStart(w.files[fd].length, offset);
    AlignedReadFull(w.files[fd].length, size, offset);
    SmallFilesSafe(w, fd, size, offset);
    buf', n := lib.Pread1(fd, buf, size, offset);
    Read1IsRead(fd, size, offset, buf, buf', n);
    PreadLengthIs(w, lib.world, fd, size, offset, buf, buf', n);
    ReadLeaves(w, lib.world, Pread1Event(fd, size, offset, buf, buf', n));
  }

  lemma Read1IsRead(fd: nat, size: nat, offset: nat, buf: nat, buf': nat, n: nat)
    ensures Read1Event(fd, size, offset, buf, buf', n).IsRead()
    ensures Pread1Event(fd, size, offset, buf, buf', n).IsRead()
  {
  }

  lemma PreadLengthIs(w: World, w': World, fd: nat, size: nat, offset: nat, buf: nat, buf': nat, n: nat)
    requires fd < |w.files| && Next(w, Pread1Event(fd, size, offset, buf, buf', n), w')
    ensures size < TWO_64 && w.files[fd].length < TWO_63
    ensures n == PreadLength(w.files[fd].length, size, offset)
  {
    hide Denotes, Fetched;
  }

  /** One round of one worker with read1: seek to the slice and read it record by record. When the
      record size divides the chunk size and the slice start, no read comes back short, and the
      pointers show the records of the slice in order. */
  method TransferSlice(lib: FileLib, fd: nat, buf: nat, fileSize: nat, threads: nat, pid: nat, size: nat)
    returns (buf': nat, errors: int, ghost ptrs: seq<nat>)
    requires lib.Valid() && fd < OPEN_MAX && lib.world.files[fd].valid
    requires pid < threads && 0 < size
    requires MAX_MMAP_SIZE % size == 0 && StartOffset(fileSize, threads, pid) % size == 0
    requires fileSize <= lib.world.files[fd].length <= TWO_52
    modifies lib.repr - {lib.fdLookup}
    ensures lib.Valid() && fresh(lib.repr - old(lib.repr))
    ensures errors == 0 && |ptrs| == Count(fileSize, threads, size)
    ensures var start := StartOffset(fileSize, threads, pid);
            && lib.world.files[fd].offset == start + |ptrs| * size
            && Shown(lib.world.mappings, ptrs, size, old(lib.world).files[fd].inode, start)
  {
    hide *;
    SliceInFile(fileSize, threads, size, pid);
    var start := StartOffset(fileSize, threads, pid);
    var count := Count(fileSize, threads, size);
    SmallStart(lib.world.files[fd].length, start);
    ghost var length, inode := lib.world.files[fd].length, lib.world.files[fd].inode;
    var r := lib.Lseek1(fd, start, SeekSet);
    Sought(old(lib.world), lib.world, fd, start);
    buf', errors, ptrs := buf, 0, [];
    ShownNone(lib.world.mappings, size, inode, start);
    var i: nat := 0;
    while i < count
      invariant i <= count && |ptrs| == i && lib.Valid() && fresh(lib.repr - old(lib.repr))
      invariant lib.world.files[fd].valid && lib.world.files[fd].length == length
      invariant lib.world.files[fd].inode == inode && Shown(lib.world.mappings, ptrs, size, inode, start)
      invariant lib.world.files[fd].offset == start + i * size && (start + i * size) % size == 0
      invariant errors == 0
    {
      Within(start, i, count, size);
      NextAligned(size, start + i * size);
      ghost var m := lib.world.mappings;
      var n;
      buf', n := ReadRecord(lib, fd, buf', size);
      if n != size { errors := errors + 1; }
      ShownNext(m, lib.world.mappings, ptrs, size, inode, start, buf');
      ptrs := ptrs + [buf'];
      assert (i + 1) * size == i * size + size;
      i := i + 1;
    }
  }

  /** The same round with pread1: the worker keeps the offset, and the file's position stays. */
  method TransferSliceAt(lib: FileLib, fd: nat, buf: nat, fileSize: nat, threads: nat, pid: nat, size: nat)
    returns (buf': nat, errors: int, ghost ptrs: seq<nat>)
    requires lib.Valid() && fd < OPEN_MAX && lib.world.files[fd].valid
    requires pid < threads && 0 < size
    requires MAX_MMAP_SIZE % size == 0 && StartOffset(fileSize, threads, pid) % size == 0
    requires fileSize <= lib.world.files[fd].length <= TWO_52
    modifies lib.repr - {lib.fdLookup}
    ensures lib.Valid() && fresh(lib.repr - old(lib.repr))
    ensures errors == 0 && |ptrs| == Count(fileSize, threads, size)
    ensures lib.world.files[fd].offset == old(lib.world).files[fd].offset
    ensures Shown(lib.world.mappings, ptrs, size, old(lib.world).files[fd].inode,
                  StartOffset(fileSize, threads, pid))
  {
    hide *;
    SliceInFile(fileSize, threads, size, pid);
    var start := StartOffset(fileSize, threads, pid);
    var count := Count(fileSize, threads, size);
    SmallStart(lib.world.files[fd].length, start);
    ghost var f := lib.world.files[fd];
    var offset: nat := start;
    buf', errors, ptrs := buf, 0, [];
    ShownNone(lib.world.mappings, size, f.inode, start);
    var i: nat := 0;
    while i < count
      invariant i <= count && |ptrs| == i && lib.Valid() && fresh(lib.repr - old(lib.repr))
      invariant lib.world.files[fd].valid && lib.world.files[fd].length == f.length
      invariant lib.world.files[fd].inode == f.inode && lib.world.files[fd].offset == f.offset
      invariant Shown(lib.world.mappings, ptrs, size, f.inode, start)
      invariant offset == start + i * size && offset % size == 0
      invariant errors == 0
    {
      Within(start, i, count, size);
      NextAligned(size, offset);
      ghost var m := lib.world.mappings;
      var n;
      buf', n := PreadRecord(lib, fd, buf', size, offset);
      if n != size { errors := errors + 1; }
      ShownNext(m, lib.world.mappings, ptrs, size, f.inode, start, buf');
      ptrs := ptrs + [buf'];
      assert (i + 1) * size == i * size + size;
      offset := offset + size;
      i := i + 1;
    }
  }

  lemma SmallStart(length: nat, start: nat)
    requires start <= length <= TWO_52
    ensures OPEN_MAX == 1024 && length < TWO_64 && IsOff(start) && start % TWO_64 == start && length < TWO_63
  {
  }

  lemma Sought(w: World, w': World, fd: nat, start: nat)
    requires fd < |w.files| && Next(w, SeekEvent(fd, start), w')
    ensures fd < |w'.files| && w'.files[fd].offset == start
    ensures w'.files[fd].valid == w.files[fd].valid && w'.files[fd].length == w.files[fd].length
    ensures w'.files[fd].inode == w.files[fd].inode
  {
  }

  lemma Within(start: nat, i: nat, count: nat, size: nat)
    requires i < count
    ensures start + i * size + size <= start + count * size
  {
    assert (i + 1) * size <= count * size;
  }

  lemma ValidWorld(lib: FileLib)
    requires lib.Valid()
    ensures WorldOk(lib.world)
  {
  }
}
