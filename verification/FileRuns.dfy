/** Whole runs of the file operations over any set of descriptors: what the returned pointers show,
    for how long, and who owns which table (lib/fileops_noposix.c, lines 181-471). */
module FileRuns {
  import opened Basics
  import opened Capacity
  import opened RadixIndex
  import opened OpenFiles
  import opened FlatFile
  import opened FileOps

  ghost predicate IsRun(ws: seq<World>, es: seq<Event>) {
    && |ws| == |es| + 1
    && forall i: nat | i < |es| :: Next(ws[i], es[i], ws[i + 1])
  }

  /** A run through states of the library. */
  ghost predicate OkRun(ws: seq<World>, es: seq<Event>) {
    IsRun(ws, es) && forall k: nat | k < |ws| :: WorldOk(ws[k])
  }

  ghost predicate Keeps(m: Mappings, m': Mappings) {
    forall b | b in m :: b in m' && m'[b] == m[b]
  }

  /** No call ever drops or redirects a mapping. */
  lemma NextKeeps(w: World, e: Event, w': World)
    requires Next(w, e, w')
    ensures Keeps(w.mappings, w'.mappings) && w.touched <= w'.touched
  {
  }

  lemma {:induction false} RunKeeps(ws: seq<World>, es: seq<Event>, i: nat, j: nat)
    requires IsRun(ws, es) && i <= j <= |es|
    ensures Keeps(ws[i].mappings, ws[j].mappings) && ws[i].touched <= ws[j].touched
    decreases j - i
  {
    if i < j {
      hide Next, Keeps;
      assert Next(ws[i], es[i], ws[i + 1]);
      NextKeeps(ws[i], es[i], ws[i + 1]);
      RunKeeps(ws, es, i + 1, j);
      KeepsOn(ws[i].mappings, ws[i + 1].mappings, ws[j].mappings);
    } else {
      hide Next;
    }
  }

  lemma KeepsOn(a: Mappings, b: Mappings, c: Mappings)
    requires Keeps(a, b) && Keeps(b, c)
    ensures Keeps(a, c)
  {
  }

  lemma DenotesStays(m: Mappings, m': Mappings, p: nat, n: nat, inode: nat, offset: nat)
    requires Keeps(m, m') && Denotes(m, p, n, inode, offset)
    ensures Denotes(m', p, n, inode, offset)
  {
    var b :| b in m && m[b].inode == inode && b <= p && p + n <= b + MAX_MMAP_SIZE
             && m[b].start + (p - b) == offset;
    assert b in m';
  }

  /** In every run, what a read returned - unless the index was truncated for it - shows exactly
      the bytes asked for, in the state it returned in and in every later one, whatever is opened,
      closed, sought or read in between. The length is the one do_pread promises. */
  lemma RunReads(ws: seq<World>, es: seq<Event>, i: nat, j: nat)
    requires IsRun(ws, es) && i < j <= |es| && es[i].IsRead()
    ensures es[i].fd < |ws[i].files|
    ensures var f, e := ws[i].files[es[i].fd], es[i];
            && e.size < TWO_64 && f.length < TWO_63
            && e.n == PreadLength(f.length, e.size, e.offset)
            && (e.n > 0 && !Spoiled(f.index, e.offset) ==>
                  Denotes(ws[j].mappings, e.buf, e.n, f.inode, e.offset))
  {
    assert Next(ws[i], es[i], ws[i + 1]);
    RunKeeps(ws, es, i + 1, j);
    var f, e := ws[i].files[es[i].fd], es[i];
    if e.n > 0 && !Spoiled(f.index, e.offset) {
      DenotesStays(ws[i + 1].mappings, ws[j].mappings, e.buf, e.n, f.inode, e.offset);
    }
  }

  /** A file of at most 2^52 bytes never meets truncation: nothing it is asked for is out of reach
      or spoiled. */
  lemma SmallFilesSafe(w: World, fd: nat, size: nat, offset: nat)
    requires WorldOk(w) && fd < OPEN_MAX && w.files[fd].valid
    requires w.files[fd].length <= TWO_52 && size < TWO_64 && offset < w.files[fd].length
    ensures InReach(w.files[fd], size, offset) && !Spoiled(w.files[fd].index, offset)
  {
    assert FileOk(w, w.files[fd], fd);
    SmallOffsetsExact(w.files[fd].index, offset);
  }

  /** The whole promise for files of at most 2^52 bytes: a read whose sum does not wrap returns the
      smallest of what was asked, what the file has and what the chunk has, and the pointer shows
      those bytes of the file in every later state. */
  lemma SmallRunReads(ws: seq<World>, es: seq<Event>, i: nat, j: nat)
    requires OkRun(ws, es) && i < j <= |es| && es[i].IsRead()
    requires es[i].fd < |ws[i].files| && ws[i].files[es[i].fd].length <= TWO_52
    ensures var f, e := ws[i].files[es[i].fd], es[i];
            && (e.offset + e.size < TWO_64 ==> e.n == ShortRead(f.length, e.size, e.offset))
            && (e.offset + e.size >= TWO_64 ==> e.n == 0)
            && (e.n > 0 ==> e.offset + e.n <= f.length
                            && Denotes(ws[j].mappings, e.buf, e.n, f.inode, e.offset))
  {
    var f, e := ws[i].files[es[i].fd], es[i];
    ReadEventFacts(ws[i], e, ws[i + 1]);
    RunReads(ws, es, i, j);
    ShortReadExact(f.length, e.size, e.offset);
    if e.n > 0 { SmallFilesSafe(ws[i], e.fd, e.size, e.offset); }
  }

  lemma ReadEventFacts(w: World, e: Event, w': World)
    requires Next(w, e, w') && e.IsRead() && WorldOk(w)
    ensures e.fd < OPEN_MAX && w.files[e.fd].valid
  {
  }

  /** Two things a pointer denotes in one file are the same place: mappings do not overlap. */
  lemma DenotesOne(m: Mappings, p: nat, n: nat, inode: nat, a: nat, b: nat)
    requires MappingsApart(m) && n > 0 && Denotes(m, p, n, inode, a) && Denotes(m, p, n, inode, b)
    ensures a == b
  {
    var x :| x in m && m[x].inode == inode && x <= p && p + n <= x + MAX_MMAP_SIZE && m[x].start + (p - x) == a;
    var y :| y in m && m[y].inode == inode && y <= p && p + n <= y + MAX_MMAP_SIZE && m[y].start + (p - y) == b;
    assert x == y;
  }

  /** A spoiled lookup that stays inside its table is answered from another chunk, and is at 2^53 or
      beyond. */
  lemma SpoiledElsewhere(ix: Index, o: nat)
    requires Spoiled(ix, o) && Indexable(ix, o)
    ensures Served(ix, o) != ChunkOf(o) && o >= 2 * TWO_52
    ensures Served(ix, o) * MAX_MMAP_SIZE + o % MAX_MMAP_SIZE != o
  {
    PowValues();
    assert Bytes(0) == MAX_MMAP_SIZE;
  }

  lemma ReadShows(w: World, e: Event, w': World)
    requires Next(w, e, w') && e.IsRead() && e.n > 0
    ensures e.fd < |w.files|
    ensures var f := w.files[e.fd];
            Denotes(w'.mappings, e.buf, e.n, f.inode,
                    Served(f.index, e.offset) * MAX_MMAP_SIZE + e.offset % MAX_MMAP_SIZE)
  {
    hide Spoiled, Served, Fetched, Denotes;
  }

  /** In every run of the library: what a read returned shows the bytes asked for - then and ever
      after - if and only if truncation did not spoil the lookup; which happens only at 2^53 or beyond. */
  lemma RunReadsExactly(ws: seq<World>, es: seq<Event>, i: nat, j: nat)
    requires OkRun(ws, es) && i < j <= |es| && es[i].IsRead() && es[i].n > 0
    requires es[i].fd < |ws[i].files| && Indexable(ws[i].files[es[i].fd].index, es[i].offset)
    ensures var f, e := ws[i].files[es[i].fd], es[i];
            && (Denotes(ws[j].mappings, e.buf, e.n, f.inode, e.offset) <==> !Spoiled(f.index, e.offset))
            && (Spoiled(f.index, e.offset) ==> e.offset >= 2 * TWO_52)
  {
    var f, e := ws[i].files[es[i].fd], es[i];
    RunReads(ws, es, i, j);
    if Spoiled(f.index, e.offset) {
      assert WorldOk(ws[j]) && MappingsApart(ws[j].mappings);
      hide WorldOk, MappingsApart, Denotes, Spoiled, Served, Indexable, PreadLength;
      assert Next(ws[i], e, ws[i + 1]);
      hide Next;
      SpoiledElsewhere(f.index, e.offset);
      ReadShows(ws[i], e, ws[i + 1]);
      RunKeeps(ws, es, i + 1, j);
      var shown := Served(f.index, e.offset) * MAX_MMAP_SIZE + e.offset % MAX_MMAP_SIZE;
      DenotesStays(ws[i + 1].mappings, ws[j].mappings, e.buf, e.n, f.inode, shown);
      if Denotes(ws[j].mappings, e.buf, e.n, f.inode, e.offset) {
        DenotesOne(ws[j].mappings, e.buf, e.n, f.inode, shown, e.offset);
      }
    }
  }

  /** Whatever has been done before to a file of that length, every request for it is in reach and
      unspoiled. */
  ghost predicate SafeLength(length: nat) {
    forall w: World, fd: nat, size: nat, offset: nat |
      && WorldOk(w) && fd < OPEN_MAX && w.files[fd].valid && w.files[fd].length == length
      && size < TWO_64 && offset < length ::
      InReach(w.files[fd], size, offset) && !Spoiled(w.files[fd].index, offset)
  }

  /** The condition a caller can check: files of at most 2^52 bytes are safe and no others are. */
  lemma SafeLengthExactly(length: nat)
    requires length < TWO_63
    ensures SafeLength(length) <==> length <= TWO_52
  {
    if length <= TWO_52 {
      hide WorldOk, Spoiled, InReach;
      forall w: World, fd: nat, size: nat, offset: nat |
        && WorldOk(w) && fd < OPEN_MAX && w.files[fd].valid && w.files[fd].length == length
        && size < TWO_64 && offset < length
        ensures InReach(w.files[fd], size, offset) && !Spoiled(w.files[fd].index, offset)
      {
        SmallFilesSafe(w, fd, size, offset);
      }
    } else {
      var w := JustOpened(length);
      hide WorldOk;
      assert WorldOk(w) && w.files[0].valid && !InReach(w.files[0], 1, TWO_52);
    }
  }

  /** A new library with one file open: at 2^52 the narrowed index is negative. */
  lemma JustOpened(length: nat) returns (w: World)
    requires TWO_52 < length < TWO_63
    ensures WorldOk(w) && w.files[0].valid && w.files[0].length == length
    ensures !InReach(w.files[0], 1, TWO_52)
  {
    NothingOpen();
    w := Opened(NewWorld(), 0, length, 0, 1);
    hide WorldOk, NewWorld;
    OpenOk(NewWorld(), 0, length, 0, 1);
    PowValues();
    assert Bytes(0) == MAX_MMAP_SIZE && PreadLength(length, 1, TWO_52) == 1;
  }

  /** How many calls of a run mapped a chunk. */
  ghost function Faults(ws: seq<World>, n: nat): nat
    requires n < |ws|
  {
    if n == 0 then 0
    else Faults(ws, n - 1) + if ws[n].mappings == ws[n - 1].mappings then 0 else 1
  }

  /** In a run the calls that mapped something are as many as the mappings they made, and as many as
      the distinct pairs of session and chunk that became available. */
  lemma {:induction false} FaultsAreDistinctPairs(ws: seq<World>, es: seq<Event>, n: nat)
    requires IsRun(ws, es) && n <= |es|
    ensures Faults(ws, n) == |ws[n].mappings| - |ws[0].mappings| == |ws[n].touched| - |ws[0].touched|
  {
    if n > 0 {
      assert Next(ws[n - 1], es[n - 1], ws[n]);
      hide Next, IsRun, Faults;
      FaultsAreDistinctPairs(ws, es, n - 1);
      FaultsNext(ws, n);
      NextMaps(ws[n - 1], es[n - 1], ws[n]);
    }
  }

  lemma FaultsNext(ws: seq<World>, n: nat)
    requires 0 < n < |ws|
    ensures Faults(ws, n) == Faults(ws, n - 1) + if ws[n].mappings == ws[n - 1].mappings then 0 else 1
  {
  }

  lemma NextMaps(w: World, e: Event, w': World)
    requires Next(w, e, w')
    ensures if w'.mappings == w.mappings then w'.touched == w.touched
            else |w'.mappings| == |w.mappings| + 1 && |w'.touched| == |w.touched| + 1
  {
    hide Denotes, Freed, Tables, Spoiled, Served;
    if e.IsRead() && e.n > 0 { ReadFetches(w, e, w'); }
  }

  /** One mapping has been added. */
  ghost predicate Adds(m: Mappings, m': Mappings, x: Mapping) {
    exists b: nat :: b !in m && m' == m[b := x]
  }

  lemma AddsOne(m: Mappings, m': Mappings, x: Mapping, y: Mapping)
    requires Adds(m, m', x) && Adds(m, m', y)
    ensures x == y
  {
    var a: nat :| a !in m && m' == m[a := x];
    var b: nat :| b !in m && m' == m[b := y];
    assert a in m' && b in m' && a == b;
    assert m'[a] == x && m'[b] == y;
  }

  /** The mapping call behind a read, if there was one. */
  lemma ReadFetches(w: World, e: Event, w': World)
    requires Next(w, e, w') && e.IsRead() && e.n > 0
    ensures e.fd < |w.files|
    ensures var f := w.files[e.fd];
            var k := Served(f.index, e.offset);
            if w'.mappings == w.mappings then w'.touched == w.touched
            else
              && (f.session, k) !in w.touched && w'.touched == w.touched + {(f.session, k)}
              && Adds(w.mappings, w'.mappings, Mapping(f.inode, k * MAX_MMAP_SIZE))
  {
    hide Denotes, Spoiled, Served;
  }

  /** The call `e` maps chunk `k` for the session `session`. */
  ghost predicate Maps(w: World, e: Event, w': World, session: nat, k: nat) {
    && e.fd < |w.files| && w.files[e.fd].session == session
    && Adds(w.mappings, w'.mappings, Mapping(w.files[e.fd].inode, k * MAX_MMAP_SIZE))
  }

  lemma MapsTouches(w: World, e: Event, w': World, session: nat, k: nat)
    requires Next(w, e, w') && Maps(w, e, w', session, k)
    ensures (session, k) !in w.touched && (session, k) in w'.touched
  {
    hide Next;
    var f := w.files[e.fd];
    assert w'.mappings != w.mappings;
    hide Adds;
    OnlyReadsMap(w, e, w');
    ReadFetches(w, e, w');
    AddsOne(w.mappings, w'.mappings, Mapping(f.inode, k * MAX_MMAP_SIZE),
            Mapping(f.inode, Served(f.index, e.offset) * MAX_MMAP_SIZE));
  }

  lemma OnlyReadsMap(w: World, e: Event, w': World)
    requires Next(w, e, w') && w'.mappings != w.mappings
    ensures e.IsRead() && e.n > 0
  {
    hide Denotes, Freed, Tables, Spoiled, Served, Fetched;
  }

  /** In every run a chunk is mapped at most once in one open session of a file, by whatever
      descriptors and calls come in between. */
  lemma MappedOnce(ws: seq<World>, es: seq<Event>, i: nat, j: nat, session: nat, k: nat)
    requires IsRun(ws, es) && i < j < |es| && Maps(ws[i], es[i], ws[i + 1], session, k)
    ensures !Maps(ws[j], es[j], ws[j + 1], session, k)
  {
    hide Next, Maps;
    assert Next(ws[i], es[i], ws[i + 1]) && Next(ws[j], es[j], ws[j + 1]);
    MapsTouches(ws[i], es[i], ws[i + 1], session, k);
    RunKeeps(ws, es, i + 1, j);
    if Maps(ws[j], es[j], ws[j + 1], session, k) {
      MapsTouches(ws[j], es[j], ws[j + 1], session, k);
    }
  }

  // ----- bytes -----

  /** The byte the processor finds at address `p`, for given file contents. */
  ghost function ByteAt(disk: map<nat, seq<Byte>>, m: Mappings, p: nat): int {
    if b: nat :|
      b in m && b <= p < b + MAX_MMAP_SIZE
      && m[b].inode in disk && m[b].start + (p - b) < |disk[m[b].inode]|
    then disk[m[b].inode][m[b].start + (p - b)] else -1
  }

  /** Mappings do not overlap, so the bytes behind a pointer are those of the file at the offset it
      denotes - for the file contents of any moment, since mappings are shared. */
  lemma DenotedBytes(disk: map<nat, seq<Byte>>, m: Mappings, p: nat, n: nat, inode: nat, offset: nat)
    requires MappingsApart(m) && Denotes(m, p, n, inode, offset)
    requires inode in disk && offset + n <= |disk[inode]|
    ensures forall q: nat | p <= q < p + n :: ByteAt(disk, m, q) == disk[inode][offset + (q - p)]
  {
    var b :| b in m && m[b].inode == inode && b <= p && p + n <= b + MAX_MMAP_SIZE
             && m[b].start + (p - b) == offset;
    forall q: nat | p <= q < p + n ensures ByteAt(disk, m, q) == disk[inode][offset + (q - p)] {
      assert m[b].start + (q - b) == offset + (q - p);
    }
  }

  /** The chunked library against the flat one, over whole runs: a read that neither wraps nor is
      spoiled returns a prefix of what the flat version returns for the same request - empty only
      together with it - and the pointer keeps showing those bytes of the file for the rest of the
      run. */
  lemma RunRefinesFlat(ws: seq<World>, es: seq<Event>, i: nat, j: nat, disk: map<nat, seq<Byte>>)
    requires IsRun(ws, es) && i < j <= |es| && es[i].IsRead() && es[i].fd < |ws[i].files|
    requires MappingsApart(ws[j].mappings)
    requires var f, e := ws[i].files[es[i].fd], es[i];
             && e.size < TWO_64 && e.offset + e.size < TWO_64 && !Spoiled(f.index, e.offset)
             && f.length < TWO_63 && f.inode in disk && f.length <= |disk[f.inode]|
    ensures var f, e := ws[i].files[es[i].fd], es[i];
            var flat := FlatLength(f.length, e.size, e.offset);
            && 0 <= e.n <= flat && (e.n == 0 <==> flat == 0)
            && (flat > 0 ==> e.offset + flat <= f.length)
            && forall q: nat | e.buf <= q < e.buf + e.n ::
                 ByteAt(disk, ws[j].mappings, q) == disk[f.inode][e.offset + (q - e.buf)]
  {
    hide Next, Spoiled, PreadLength, FlatLength, MappingsApart, ByteAt, Denotes;
    var f, e := ws[i].files[es[i].fd], es[i];
    RunReads(ws, es, i, j);
    PrefixOfFlat(f.length, e.size, e.offset);
    if e.n > 0 {
      DenotedBytes(disk, ws[j].mappings, e.buf, e.n, f.inode, e.offset);
    }
  }

  // ----- reading on -----

  /** Between states `i` and `j` nothing but reads is done to descriptor `fd`; other descriptors may
      be used at will. */
  predicate OnlyReads(es: seq<Event>, fd: nat, i: nat, j: nat)
    requires i <= j <= |es|
  {
    forall k: nat | i <= k < j && es[k].fd == fd :: es[k].IsRead()
  }

  lemma DescriptorCount(w: World)
    requires WorldOk(w)
    ensures |w.files| == OPEN_MAX
  {
  }

  /** One call seen from descriptor `fd`: only its own read1 moves it, and by what was returned. */
  lemma NextSeenFrom(w: World, e: Event, w': World, fd: nat)
    requires Next(w, e, w') && fd < |w.files| && (e.fd == fd ==> e.IsRead())
    ensures var f, f' := w.files[fd], w'.files[fd];
            && f'.valid == f.valid && f'.length == f.length && f'.inode == f.inode
            && (if e.Read1Event? && e.fd == fd then e.offset == f.offset && f'.offset == f.offset + e.n
                else f'.offset == f.offset)
  {
    hide Denotes, Freed, Tables;
    if e.Read1Event? && e.fd == fd {
      assert Repositioned(w', fd, e.offset).files[fd].length == w'.files[fd].length;
      assert Repositioned(w', fd, e.offset).files[fd].inode == w'.files[fd].inode;
      assert Repositioned(w', fd, e.offset).files[fd].valid == w'.files[fd].valid;
    } else if e.Read1Event? {
      assert Repositioned(w', e.fd, e.offset).files[fd] == w'.files[fd];
    }
  }

  /** The `n` bytes the processor finds at address `p`. */
  ghost function Seen(disk: map<nat, seq<Byte>>, m: Mappings, p: nat, n: nat): seq<int> {
    seq(n, x requires 0 <= x < n => ByteAt(disk, m, p + x))
  }

  /** What is seen through the pointers that the read1 calls on `fd` between `i` and `j` returned, put
      one after the other; looked at with mappings `m`. */
  ghost function Joined(es: seq<Event>, fd: nat, i: nat, j: nat, disk: map<nat, seq<Byte>>, m: Mappings): seq<int>
    requires i <= j <= |es|
  {
    if i == j then []
    else
      var e := es[j - 1];
      Joined(es, fd, i, j - 1, disk, m)
      + if e.Read1Event? && e.fd == fd then Seen(disk, m, e.buf, e.n) else []
  }

  /** The index is not truncated for any read1 call on `fd` between `i` and `j` that returns something. */
  ghost predicate Unspoiled(ws: seq<World>, es: seq<Event>, fd: nat, i: nat, j: nat)
    requires i <= j <= |es| == |ws| - 1
  {
    forall k: nat | i <= k < j && es[k].Read1Event? && es[k].fd == fd && es[k].n > 0 ::
      fd < |ws[k].files| && !Spoiled(ws[k].files[fd].index, es[k].offset)
  }

  /** That is so for every file of at most 2^52 bytes. */
  lemma {:induction false} SmallUnspoiled(ws: seq<World>, es: seq<Event>, fd: nat, i: nat, j: nat)
    requires OkRun(ws, es) && i <= j <= |es| && fd < OPEN_MAX && OnlyReads(es, fd, i, j)
    requires ws[i].files[fd].length <= TWO_52
    ensures ws[j].files[fd].length == ws[i].files[fd].length && Unspoiled(ws, es, fd, i, j)
    decreases j - i
  {
    hide WorldOk, Next, Spoiled;
    DescriptorCount(ws[i]);
    if i < j {
      SmallUnspoiled(ws, es, fd, i, j - 1);
      var w, e, w' := ws[j - 1], es[j - 1], ws[j];
      assert Next(w, e, w');
      DescriptorCount(w);
      NextSeenFrom(w, e, w', fd);
      if e.Read1Event? && e.fd == fd && e.n > 0 {
        SmallRunReads(ws, es, j - 1, j);
        ReadEventFacts(w, e, w');
        SmallFilesSafe(w, fd, 0, e.offset);
      }
    }
  }

  /** In every run of the library: consecutive read1 calls on a descriptor, with anything done to
      other descriptors in between, return pointers through which exactly the file from the first
      position to the last is seen, without gap or overlap - in any later state. */
  lemma {:induction false} ReadsJoin(ws: seq<World>, es: seq<Event>, fd: nat, i: nat, j: nat, last: nat,
                                     disk: map<nat, seq<Byte>>)
    requires OkRun(ws, es) && i <= j <= last <= |es| && fd < OPEN_MAX && OnlyReads(es, fd, i, j)
    requires Unspoiled(ws, es, fd, i, j)
    requires var f := ws[i].files[fd];
             && f.valid && f.offset <= f.length
             && f.inode in disk && f.length <= |disk[f.inode]|
    ensures var f, f' := ws[i].files[fd], ws[j].files[fd];
            && f'.valid && f'.length == f.length && f'.inode == f.inode
            && f.offset <= f'.offset <= f.length
            && Joined(es, fd, i, j, disk, ws[last].mappings) == disk[f.inode][f.offset..f'.offset]
    decreases j - i
  {
    hide WorldOk, Next, Joined, Seen, Spoiled, Denotes, PreadLength;
    DescriptorCount(ws[i]);
    JoinedStep(es, fd, i, j, disk, ws[last].mappings);
    if i < j {
      ReadsJoin(ws, es, fd, i, j - 1, last, disk);
      var w, e, w' := ws[j - 1], es[j - 1], ws[j];
      assert Next(w, e, w');
      DescriptorCount(w);
      NextSeenFrom(w, e, w', fd);
      if e.Read1Event? && e.fd == fd {
        RunReads(ws, es, j - 1, last);
        var f := ws[i].files[fd];
        if e.n > 0 { SeenIs(disk, ws, last, e.buf, e.n, f.inode, e.offset); }
        Adjoin(disk[f.inode], f.offset, e.offset, e.offset + e.n);
      }
    }
  }

  lemma JoinedStep(es: seq<Event>, fd: nat, i: nat, j: nat, disk: map<nat, seq<Byte>>, m: Mappings)
    requires i <= j <= |es|
    ensures i == j ==> Joined(es, fd, i, j, disk, m) == []
    ensures i < j ==>
              var e, before := es[j - 1], Joined(es, fd, i, j - 1, disk, m);
              Joined(es, fd, i, j, disk, m) ==
              if e.Read1Event? && e.fd == fd && e.n > 0 then before + Seen(disk, m, e.buf, e.n) else before
  {
    if i < j && es[j - 1].Read1Event? && es[j - 1].n == 0 {
      assert Seen(disk, m, es[j - 1].buf, 0) == [];
    }
  }

  lemma Adjoin(s: seq<Byte>, a: nat, b: nat, c: nat)
    requires a <= b <= c <= |s|
    ensures s[a..b] + s[b..c] == s[a..c]
  {
  }

  lemma SeenIs(disk: map<nat, seq<Byte>>, ws: seq<World>, last: nat, p: nat, n: nat, inode: nat, offset: nat)
    requires last < |ws| && WorldOk(ws[last]) && Denotes(ws[last].mappings, p, n, inode, offset)
    requires inode in disk && offset + n <= |disk[inode]|
    ensures Seen(disk, ws[last].mappings, p, n) == disk[inode][offset..offset + n]
  {
    DenotedBytes(disk, ws[last].mappings, p, n, inode, offset);
  }

  /** The read1 calls on `fd` between `i` and `j`. */
  function Reads(es: seq<Event>, fd: nat, i: nat, j: nat): nat
    requires i <= j <= |es|
  {
    if i == j then 0
    else Reads(es, fd, i, j - 1) + if es[j - 1].Read1Event? && es[j - 1].fd == fd then 1 else 0
  }

  /** Reads of positive size whose sum does not wrap. */
  predicate Proper(es: seq<Event>, fd: nat, i: nat, j: nat)
    requires i <= j <= |es|
  {
    forall k: nat | i <= k < j && es[k].Read1Event? && es[k].fd == fd ::
      0 < es[k].size && es[k].offset + es[k].size < TWO_64
  }

  /** Each of them advances the position until it is at the end of the file, where it stays. */
  lemma {:induction false} ReadsAdvance(ws: seq<World>, es: seq<Event>, fd: nat, i: nat, j: nat)
    requires OkRun(ws, es) && i <= j <= |es| && fd < OPEN_MAX
    requires OnlyReads(es, fd, i, j) && Proper(es, fd, i, j)
    requires var f := ws[i].files[fd]; f.valid && f.offset <= f.length
    ensures var f, f' := ws[i].files[fd], ws[j].files[fd];
            && f'.valid && f'.length == f.length && f'.offset <= f.length
            && (f'.offset == f.length || f'.offset >= f.offset + Reads(es, fd, i, j))
    decreases j - i
  {
    hide WorldOk, Next;
    if i < j {
      ReadsAdvance(ws, es, fd, i, j - 1);
      var w, e, w' := ws[j - 1], es[j - 1], ws[j];
      assert Next(w, e, w');
      DescriptorCount(w);
      NextSeenFrom(w, e, w', fd);
      if e.Read1Event? && e.fd == fd {
        RunReads(ws, es, j - 1, j);
        ShortReadExact(w.files[fd].length, e.size, e.offset);
      }
    }
  }

  /** Enough of them reach the end of the file, and what they returned is exactly its suffix. */
  lemma ReadToEnd(ws: seq<World>, es: seq<Event>, fd: nat, i: nat, j: nat, last: nat,
                  disk: map<nat, seq<Byte>>)
    requires OkRun(ws, es) && i <= j <= last <= |es| && fd < OPEN_MAX
    requires OnlyReads(es, fd, i, j) && Proper(es, fd, i, j) && Unspoiled(ws, es, fd, i, j)
    requires var f := ws[i].files[fd];
             && f.valid && f.offset <= f.length
             && f.inode in disk && f.length == |disk[f.inode]|
             && Reads(es, fd, i, j) >= f.length - f.offset
    ensures var f := ws[i].files[fd];
            && ws[j].files[fd].offset == f.length
            && Joined(es, fd, i, j, disk, ws[last].mappings) == disk[f.inode][f.offset..]
  {
    hide WorldOk, Next, Joined, Reads, Proper, OnlyReads, Unspoiled;
    ReadsAdvance(ws, es, fd, i, j);
    ReadsJoin(ws, es, fd, i, j, last, disk);
    DescriptorCount(ws[i]);
    var f := ws[i].files[fd];
    assert disk[f.inode][f.offset..f.length] == disk[f.inode][f.offset..];
  }

  // ----- truncation at the interface -----

  /** The narrowed index at work: on a new library, a file of 2^54 bytes is opened, a block at 0 is
      read, and then the block at 2^53 - whose pointer shows the block at 0 instead. */
  method MisreadAt2To53(fd: nat, buf: nat, ghost inode: nat) returns (lib: FileLib, buf': nat, n: nat)
    requires fd < OPEN_MAX
    ensures lib.Valid() && fresh(lib.repr) && n == 4096
    ensures lib.world.files[fd].valid && lib.world.files[fd].inode == inode
    ensures lib.world.files[fd].length == 4 * TWO_52
    ensures Denotes(lib.world.mappings, buf', n, inode, 0)
    ensures !Denotes(lib.world.mappings, buf', n, inode, 2 * TWO_52)
  {
    hide *;
    Limits();
    lib := new FileLib();
    ghost var w0 := lib.world;
    var r := lib.Open1(fd, 4 * TWO_52, inode);
    ghost var w1 := lib.world;
    FirstRead(w0, w1, fd, inode, w1.files[fd].root);
    buf', n := lib.Pread1(fd, buf, 4096, 0);
    ghost var w2, base := lib.world, buf';
    SecondRead(w1, w2, fd, inode, buf, base, n);
    buf', n := lib.Pread1(fd, buf', 4096, 2 * TWO_52);
    Misread(w2, lib.world, fd, inode, base, buf', n);
  }

  lemma Limits()
    ensures OPEN_MAX == 1024 && TWO_52 == 0x10_0000_0000_0000
    ensures TWO_63 == 0x8000_0000_0000_0000 && TWO_64 == 0x1_0000_0000_0000_0000
    ensures IsOff(0) && IsOff(2 * TWO_52) && 0 % TWO_64 == 0 && (2 * TWO_52) % TWO_64 == 2 * TWO_52
  {
  }

  lemma FirstRead(w0: World, w1: World, fd: nat, inode: nat, root: nat)
    requires fd < |w0.files| && w0.files[fd] == FileState(false, 0, 0, 0, 0, 0, NO_INDEX) && w0.mappings == map[]
    requires Next(w0, OpenEvent(fd, 4 * TWO_52, inode, root), w1)
    ensures fd < |w1.files| && w1.mappings == map[]
    ensures var f := w1.files[fd];
            && f.valid && f.length == 4 * TWO_52 && f.inode == inode
            && f.index.height == 0 && f.index.chunks == map[] && InReach(f, 4096, 0)
  {
    PowValues();
  }

  lemma SecondRead(w1: World, w2: World, fd: nat, inode: nat, buf: nat, base: nat, n: nat)
    requires fd < |w1.files| && w1.mappings == map[]
    requires var f := w1.files[fd];
             && f.valid && f.length == 4 * TWO_52 && f.inode == inode
             && f.index.height == 0 && f.index.chunks == map[]
    requires Next(w1, Pread1Event(fd, 4096, 0, buf, base, n), w2)
    ensures fd < |w2.files| && w2.mappings == map[base := Mapping(inode, 0)]
    ensures var f := w2.files[fd];
            && f.valid && f.length == 4 * TWO_52 && f.inode == inode
            && f.index.height == 0 && f.index.chunks == map[0 := base] && InReach(f, 4096, 2 * TWO_52)
  {
    PowValues();
    assert Bytes(1) > 0;
    assert n == 4096;
    assert Denotes(w2.mappings, base, n, inode, 0);
  }

  lemma Misread(w2: World, w3: World, fd: nat, inode: nat, base: nat, buf: nat, n: nat)
    requires fd < |w2.files| && w2.mappings == map[base := Mapping(inode, 0)]
    requires var f := w2.files[fd];
             && f.valid && f.length == 4 * TWO_52 && f.inode == inode
             && f.index.height == 0 && f.index.chunks == map[0 := base]
    requires Next(w2, Pread1Event(fd, 4096, 2 * TWO_52, base, buf, n), w3)
    ensures w3 == w2 && n == 4096
    ensures Denotes(w3.mappings, buf, n, inode, 0) && !Denotes(w3.mappings, buf, n, inode, 2 * TWO_52)
  {
    PowValues();
    assert ChunkOf(2 * TWO_52) == TWO_32 && Served(w2.files[fd].index, 2 * TWO_52) == 0;
  }

  // ----- ownership -----

  /** The tables form trees: the same address is never at two places, be it in one file or in two,
      every table of a file is live, and every live table is in a tree or leaked, never both. */
  lemma TablesPartitioned(w: World)
    requires WorldOk(w)
    ensures forall i: nat, j: nat, c, d |
              i < OPEN_MAX && j < OPEN_MAX && c in w.files[i].index.at && d in w.files[j].index.at ::
              w.files[i].index.at[c] == w.files[j].index.at[d] ==> i == j && c == d
    ensures forall i: nat, c | i < OPEN_MAX && c in w.files[i].index.at ::
              w.files[i].index.at[c] in w.mem && w.files[i].index.at[c] !in w.leaked
    ensures forall a | a in w.mem && a !in w.leaked ::
              exists i: nat :: i < OPEN_MAX && a in Tables(w.files[i].index)
  {
    hide Represents, MappingsApart, SessionsApart, ChunksMapped, ChunksTouched;
    forall i: nat, j: nat, c, d |
      && i < OPEN_MAX && j < OPEN_MAX && c in w.files[i].index.at && d in w.files[j].index.at
      && w.files[i].index.at[c] == w.files[j].index.at[d]
      ensures i == j && c == d
    {
      assert FileOk(w, w.files[i], i) && FileOk(w, w.files[j], j);
      OnePlace(w, i);
    }
    forall i: nat, c | i < OPEN_MAX && c in w.files[i].index.at
      ensures w.files[i].index.at[c] in w.owner
    {
      assert FileOk(w, w.files[i], i);
    }
    forall a | a in w.mem && a !in w.leaked
      ensures exists i: nat :: i < OPEN_MAX && a in Tables(w.files[i].index)
    {
      assert a in w.owner && a in Tables(w.files[w.owner[a]].index);
    }
  }

  lemma OnePlace(w: World, i: nat)
    requires i < |w.files| && FileOk(w, w.files[i], i)
    ensures forall c, d | c in w.files[i].index.at && d in w.files[i].index.at ::
              w.files[i].index.at[c] == w.files[i].index.at[d] ==> c == d
  {
  }
}
