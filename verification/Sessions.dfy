/** One open session of a descriptor, from open1 to close1: how its tree grows with what is read, and
    so what the close loses (lib/fileops_noposix.c, lines 181-210, 291-306 and 430-471). */
module Sessions {
  import opened Basics
  import opened Capacity
  import opened RadixIndex
  import opened OpenFiles
  import opened FlatFile
  import opened FileOps
  import opened FileRuns

  /** A read on `fd` that got as far as the index. */
  predicate ReadOn(e: Event, fd: nat) {
    e.IsRead() && e.fd == fd && e.n > 0
  }

  /** The region of 2^31 bytes - the range of one leaf table - that the read is answered from. */
  function Region(w: World, e: Event): nat {
    if e.IsRead() && e.fd < |w.files| then Served(w.files[e.fd].index, e.offset) / FANOUT else 0
  }

  /** The regions read on `fd` by the calls from `i` to `j`. */
  function Regions(ws: seq<World>, es: seq<Event>, fd: nat, i: nat, j: nat): set<nat>
    requires i <= j <= |es| < |ws|
  {
    set m: nat | i <= m < j && ReadOn(es[m], fd) :: Region(ws[m], es[m])
  }

  /** Nobody opens or closes `fd`. */
  predicate StaysOpen(es: seq<Event>, fd: nat, i: nat, j: nat)
    requires i <= j <= |es|
  {
    forall m: nat | i <= m < j && es[m].fd == fd :: !es[m].OpenEvent? && !es[m].CloseEvent?
  }

  /** The leaves a chunk map needs. */
  function LeafNumbersOf(ix: Index): set<nat> {
    set k | k in ix.chunks :: k / FANOUT
  }

  /** What one call does to an open file's tree. */
  lemma NextTree(w: World, e: Event, w': World, fd: nat)
    requires Next(w, e, w') && WorldOk(w) && WorldOk(w') && fd < OPEN_MAX && w.files[fd].valid
    requires e.fd == fd ==> !e.OpenEvent? && !e.CloseEvent?
    ensures var f, f' := w.files[fd], w'.files[fd];
            && f'.valid && f'.length == f.length && f.index.at.Keys <= f'.index.at.Keys
            && (!ReadOn(e, fd) ==> f'.index == f.index)
            && (ReadOn(e, fd) ==>
                  var k := Served(f.index, e.offset);
                  && f'.index.chunks.Keys == f.index.chunks.Keys + {k}
                  && (f'.index.height > 0 <==> f.index.height > 0 || k >= FANOUT))
  {
    if ReadOn(e, fd) {
      ReadGrows(w, e, w');
    } else {
      hide WorldOk, Denotes, Fetched, Freed, Tables, Served, Spoiled;
      OtherCall(w, e, w', fd);
    }
  }

  lemma OtherCall(w: World, e: Event, w': World, fd: nat)
    requires Next(w, e, w') && fd < |w.files| && !ReadOn(e, fd)
    requires e.fd == fd ==> !e.OpenEvent? && !e.CloseEvent?
    ensures var f, f' := w.files[fd], w'.files[fd];
            f'.valid == f.valid && f'.length == f.length && f'.index == f.index
  {
    hide Denotes, Freed, Tables, Served, Spoiled;
    if e.Read1Event? {
      var back := Repositioned(w', e.fd, e.offset);
      assert back.files[fd].index == w'.files[fd].index && back.files[fd].length == w'.files[fd].length;
      assert back.files[fd].valid == w'.files[fd].valid;
    }
  }

  /** A read adds the chunk it is served from, and the tree outgrows a single table with the first
      chunk past its range. */
  lemma ReadGrows(w: World, e: Event, w': World)
    requires Next(w, e, w') && WorldOk(w) && WorldOk(w') && e.IsRead() && e.n > 0
    requires e.fd < OPEN_MAX && w.files[e.fd].valid
    ensures var f, f' := w.files[e.fd], w'.files[e.fd];
            var k := Served(f.index, e.offset);
            && f'.valid && f'.length == f.length && f.index.at.Keys <= f'.index.at.Keys
            && f'.index.chunks.Keys == f.index.chunks.Keys + {k}
            && (f'.index.height > 0 <==> f.index.height > 0 || k >= FANOUT)
  {
    var fd, f, f' := e.fd, w.files[e.fd], w'.files[e.fd];
    var k := Served(f.index, e.offset);
    FlatTree(w, fd);
    FlatTree(w', fd);
    hide WorldOk, Fetched, Served;
    var back := ReadAnswer(w, e, w');
    FetchedTree(w, back, fd, k);
    hide Next;
  }

  /** The fetch behind a read. */
  lemma ReadAnswer(w: World, e: Event, w': World) returns (back: World)
    requires Next(w, e, w') && e.IsRead() && e.n > 0
    ensures e.fd < |w.files| == |w'.files| == |back.files|
    ensures Fetched(w, back, e.fd, Served(w.files[e.fd].index, e.offset))
    ensures back.files[e.fd].index == w'.files[e.fd].index && back.files[e.fd].valid == w'.files[e.fd].valid
    ensures back.files[e.fd].length == w'.files[e.fd].length
  {
    hide Fetched, Served, Spoiled, Denotes;
    back := if e.Read1Event? then Repositioned(w', e.fd, e.offset) else w';
  }

  lemma FetchedTree(w: World, w': World, fd: nat, k: nat)
    requires |w.files| == |w'.files| && fd < |w.files| && Fetched(w, w', fd, k)
    ensures var f, f' := w.files[fd], w'.files[fd];
            && f'.valid == f.valid && f'.length == f.length && f.index.at.Keys <= f'.index.at.Keys
            && f'.index.chunks.Keys == f.index.chunks.Keys + {k} && f.index.height <= f'.index.height
            && (f'.index.height > f.index.height ==> k >= FANOUT)
  {
    PowValues();
    var f, f' := w.files[fd], w'.files[fd];
    if f'.index.height > f.index.height {
      assert Bytes(1) <= k * MAX_MMAP_SIZE;
    }
  }

  /** A single table holds no chunk past its range. */
  lemma FlatTree(w: World, fd: nat)
    requires WorldOk(w) && fd < OPEN_MAX
    ensures var ix := w.files[fd].index; ix.height == 0 ==> forall k | k in ix.chunks :: k < FANOUT
  {
    var f := w.files[fd];
    assert FileOk(w, f, fd);
    PowValues();
    if f.valid && f.index.height == 0 {
      ShapeOf(w.mem, f.root, f.index);
      forall k | k in f.index.chunks ensures k < FANOUT { ChunkPath(f.index, k, 0); }
    }
  }

  lemma NextRegions(ws: seq<World>, es: seq<Event>, fd: nat, i: nat, j: nat)
    requires i <= j < |es| < |ws|
    ensures Regions(ws, es, fd, i, j + 1) ==
            Regions(ws, es, fd, i, j) + if ReadOn(es[j], fd) then {Region(ws[j], es[j])} else {}
  {
    hide ReadOn, Region;
  }

  /** In a session opened at `i` on a closed descriptor: the tree keeps its first leaf, has a leaf for
      every region read, and is more than a single table when a region but the first has been read. */
  lemma {:induction false} SessionTree(ws: seq<World>, es: seq<Event>, fd: nat, i: nat, j: nat)
    requires OkRun(ws, es) && i < j <= |es| && fd < OPEN_MAX
    requires es[i].OpenEvent? && es[i].fd == fd && !ws[i].files[fd].valid && StaysOpen(es, fd, i + 1, j)
    ensures var f := ws[j].files[fd];
            && f.valid && f.length == es[i].length && Coord(0, 0) in f.index.at
            && LeafNumbersOf(f.index) == Regions(ws, es, fd, i + 1, j)
            && (f.index.height == 0 <==> Regions(ws, es, fd, i + 1, j) <= {0})
    decreases j - i
  {
    hide WorldOk, Next, Regions;
    if i + 1 == j {
      assert Next(ws[i], es[i], ws[i + 1]);
      SessionStarts(ws[i], es[i], ws[i + 1]);
      assert Regions(ws, es, fd, j, j) == {} by { NoRegions(ws, es, fd, j); }
    } else {
      SessionTree(ws, es, fd, i, j - 1);
      assert Next(ws[j - 1], es[j - 1], ws[j]);
      DescriptorCount(ws[j - 1]);
      DescriptorCount(ws[j]);
      NextTree(ws[j - 1], es[j - 1], ws[j], fd);
      NextRegions(ws, es, fd, i + 1, j - 1);
      LeafAdded(ws[j - 1], es[j - 1], ws[j], fd);
    }
  }

  lemma NoRegions(ws: seq<World>, es: seq<Event>, fd: nat, j: nat)
    requires j <= |es| < |ws|
    ensures Regions(ws, es, fd, j, j) == {}
  {
  }

  lemma SessionStarts(w: World, e: Event, w': World)
    requires Next(w, e, w') && WorldOk(w) && e.OpenEvent? && e.fd < OPEN_MAX && !w.files[e.fd].valid
    ensures e.fd < |w'.files|
    ensures var f := w'.files[e.fd];
            && f.valid && f.length == e.length && f.index.height == 0 && f.index.chunks == map[]
            && Coord(0, 0) in f.index.at && LeafNumbersOf(f.index) == {}
  {
    assert FileOk(w, w.files[e.fd], e.fd);
    hide WorldOk, FileOk;
  }

  lemma LeafAdded(w: World, e: Event, w': World, fd: nat)
    requires fd < |w.files| && fd < |w'.files|
    requires !ReadOn(e, fd) ==> w'.files[fd].index == w.files[fd].index
    requires ReadOn(e, fd) ==>
               w'.files[fd].index.chunks.Keys ==
               w.files[fd].index.chunks.Keys + {Served(w.files[fd].index, e.offset)}
    ensures LeafNumbersOf(w'.files[fd].index) ==
            LeafNumbersOf(w.files[fd].index) + if ReadOn(e, fd) then {Region(w, e)} else {}
    ensures ReadOn(e, fd) ==> (Region(w, e) > 0 <==> Served(w.files[fd].index, e.offset) >= FANOUT)
  {
    hide Served;
    var ix, ix' := w.files[fd].index, w'.files[fd].index;
    assert forall k :: k in ix'.chunks <==> k in ix'.chunks.Keys;
    assert forall k :: k in ix.chunks <==> k in ix.chunks.Keys;
  }

  /** What a whole session loses: nothing if only the first 2^31 bytes were read, and otherwise one
      table for each region read and one for the first region, read or not. */
  lemma SessionLoses(ws: seq<World>, es: seq<Event>, fd: nat, i: nat, j: nat)
    requires OkRun(ws, es) && i < j < |es| && fd < OPEN_MAX
    requires es[i].OpenEvent? && es[i].fd == fd && !ws[i].files[fd].valid && StaysOpen(es, fd, i + 1, j)
    requires es[j] == CloseEvent(fd)
    ensures var regions := Regions(ws, es, fd, i + 1, j);
            && |ws[j + 1].leaked| == |ws[j].leaked| + (if regions <= {0} then 0 else |regions + {0}|)
            && (ws[j + 1].leaked == ws[j].leaked <==> regions <= {0})
  {
    hide WorldOk, Next, Regions, Closed;
    SessionTree(ws, es, fd, i, j);
    assert Next(ws[j], es[j], ws[j + 1]);
    DescriptorCount(ws[j]);
    CloseIs(ws[j], fd, ws[j + 1]);
    CloseLoses(ws[j], fd);
    var ix := ws[j].files[fd].index;
    LostIs(ix);
    hide LeafNumbersOf, LostLeaves;
  }

  lemma CloseIs(w: World, fd: nat, w': World)
    requires Next(w, CloseEvent(fd), w') && fd < |w.files|
    ensures w' == Closed(w, fd)
  {
    hide Closed;
  }

  lemma AfterClose(w: World, fd: nat, w': World)
    requires Next(w, CloseEvent(fd), w')
    ensures fd < |w'.files| && !w'.files[fd].valid
  {
  }

  lemma LostIs(ix: Index)
    ensures Coord(0, 0) in ix.at ==> LostLeaves(ix) == if ix.height == 0 then {} else LeafNumbersOf(ix) + {0}
    ensures LeafNumbersOf(ix) == {} <==> ix.chunks == map[]
  {
    if k :| k in ix.chunks { assert k / FANOUT in LeafNumbersOf(ix); } else { assert ix.chunks == map[]; }
  }

  /** For a file of at most 2^52 bytes the regions are those of the offsets asked for. */
  lemma SmallRegions(ws: seq<World>, es: seq<Event>, fd: nat, i: nat, j: nat)
    requires OkRun(ws, es) && i < j <= |es| && fd < OPEN_MAX
    requires es[i].OpenEvent? && es[i].fd == fd && !ws[i].files[fd].valid && StaysOpen(es, fd, i + 1, j)
    requires es[i].length <= TWO_52
    ensures Regions(ws, es, fd, i + 1, j) ==
            set m: nat | i < m < j && ReadOn(es[m], fd) :: es[m].offset / TWO_31
  {
    forall m: nat | i < m < j && ReadOn(es[m], fd) ensures Region(ws[m], es[m]) == es[m].offset / TWO_31 {
      hide WorldOk, Next, Served, Spoiled, Regions;
      SessionTree(ws, es, fd, i, m);
      DescriptorCount(ws[m]);
      assert Next(ws[m], es[m], ws[m + 1]);
      SmallRunReads(ws, es, m, m + 1);
      IndexHeight(ws[m], fd);
      SmallOffsetsExact(ws[m].files[fd].index, es[m].offset);
      DivMul(es[m].offset, MAX_MMAP_SIZE, FANOUT);
    }
  }

  lemma IndexHeight(w: World, fd: nat)
    requires WorldOk(w) && fd < OPEN_MAX
    ensures w.files[fd].index.height <= MAX_HEIGHT
  {
    assert FileOk(w, w.files[fd], fd);
    RootIsTable(w, fd);
  }

  // ----- the loss at the interface -----

  /** On a new library a file is opened, a block at 0 and one at 2^31 are read, and the close leaves
      both leaf tables behind. */
  method CloseLeaks(fd: nat, buf: nat, ghost inode: nat) returns (lib: FileLib)
    requires fd < OPEN_MAX
    ensures lib.Valid() && fresh(lib.repr) && !lib.world.files[fd].valid
    ensures |lib.world.leaked| == 2
  {
    hide *;
    Limits();
    Offsets();
    lib := new FileLib();
    ghost var w0 := lib.world;
    LibOk(lib);
    var r := lib.Open1(fd, 2 * TWO_31, inode);
    ghost var w1, e0 := lib.world, OpenEvent(fd, 2 * TWO_31, inode, lib.world.files[fd].root);
    LibOk(lib);
    SmallFilesSafe(w1, fd, 4096, 0);
    var a, n := lib.Pread1(fd, buf, 4096, 0);
    ghost var w2, e1 := lib.world, Pread1Event(fd, 4096, 0, buf, a, n);
    LibOk(lib);
    ReadKeeps(w1, e1, w2);
    SmallFilesSafe(w2, fd, 4096, TWO_31);
    var b, k := lib.Pread1(fd, a, 4096, TWO_31);
    ghost var w3, e2 := lib.world, Pread1Event(fd, 4096, TWO_31, a, b, k);
    LibOk(lib);
    ReadKeeps(w2, e2, w3);
    r := lib.Close1(fd);
    LibOk(lib);
    ghost var e3 := CloseEvent(fd);
    AfterClose(w3, fd, lib.world);
    FourCalls(w0, e0, w1, e1, w2, e2, w3, e3, lib.world);
    TwoRegions([w0, w1, w2, w3, lib.world], [e0, e1, e2, e3], fd);
  }

  lemma Offsets()
    ensures IsOff(TWO_31) && TWO_31 % TWO_64 == TWO_31 && 0 < TWO_31 && 2 * TWO_31 <= TWO_52
  {
  }

  lemma LibOk(lib: FileLib)
    requires lib.Valid()
    ensures WorldOk(lib.world)
  {
  }

  lemma ReadKeeps(w: World, e: Event, w': World)
    requires Next(w, e, w') && e.Pread1Event? && e.fd < OPEN_MAX && WorldOk(w) && WorldOk(w')
    ensures |w.files| == |w'.files| == OPEN_MAX
    ensures w'.files[e.fd].valid && w'.files[e.fd].length == w.files[e.fd].length
  {
    hide Fetched, Denotes, Served, Spoiled;
    ReadEventFacts(w, e, w');
    NextSeenFrom(w, e, w', e.fd);
  }

  lemma FourCalls(w0: World, e0: Event, w1: World, e1: Event, w2: World, e2: Event, w3: World, e3: Event, w4: World)
    requires WorldOk(w0) && WorldOk(w1) && WorldOk(w2) && WorldOk(w3) && WorldOk(w4)
    requires Next(w0, e0, w1) && Next(w1, e1, w2) && Next(w2, e2, w3) && Next(w3, e3, w4)
    ensures OkRun([w0, w1, w2, w3, w4], [e0, e1, e2, e3])
  {
    hide WorldOk, Next;
    var ws, es := [w0, w1, w2, w3, w4], [e0, e1, e2, e3];
    forall i: nat | i < |es| ensures Next(ws[i], es[i], ws[i + 1]) {
      if i == 0 {} else if i == 1 {} else if i == 2 {} else {}
    }
    forall i: nat | i < |ws| ensures WorldOk(ws[i]) {
      if i == 0 {} else if i == 1 {} else if i == 2 {} else if i == 3 {} else {}
    }
  }

  lemma KeepsLeaks(w: World, e: Event, w': World)
    requires Next(w, e, w') && WorldOk(w) && e.IsRead()
    ensures w'.leaked == w.leaked
  {
    hide Denotes, Served, Spoiled, WorldOk;
  }

  lemma OpenLeaksNothing(w: World, e: Event, w': World)
    requires Next(w, e, w') && WorldOk(w) && e.OpenEvent? && e.fd < OPEN_MAX && !w.files[e.fd].valid
    ensures w'.leaked == w.leaked
  {
    assert FileOk(w, w.files[e.fd], e.fd);
    hide WorldOk, FileOk;
    assert Tables(NO_INDEX) == {};
  }

  lemma TwoRegions(ws: seq<World>, es: seq<Event>, fd: nat)
    requires OkRun(ws, es) && |es| == 4 && fd < OPEN_MAX && !ws[0].files[fd].valid && ws[0].leaked == {}
    requires es[0].OpenEvent? && es[0].fd == fd && es[0].length == 2 * TWO_31
    requires es[1].Pread1Event? && es[1].fd == fd && es[1].size == 4096 && es[1].offset == 0
    requires es[2].Pread1Event? && es[2].fd == fd && es[2].size == 4096 && es[2].offset == TWO_31
    requires es[3] == CloseEvent(fd)
    ensures |ws[4].leaked| == 2
  {
    hide WorldOk, Next, Regions, Served, Spoiled, PreadLength, Denotes;
    assert Next(ws[0], es[0], ws[1]) && Next(ws[1], es[1], ws[2]) && Next(ws[2], es[2], ws[3]);
    OpenLeaksNothing(ws[0], es[0], ws[1]);
    KeepsLeaks(ws[1], es[1], ws[2]);
    KeepsLeaks(ws[2], es[2], ws[3]);
    SessionTree(ws, es, fd, 0, 1);
    SessionTree(ws, es, fd, 0, 2);
    DescriptorCount(ws[1]);
    DescriptorCount(ws[2]);
    SmallRunReads(ws, es, 1, 2);
    SmallRunReads(ws, es, 2, 3);
    SmallRegions(ws, es, fd, 0, 3);
    SessionLoses(ws, es, fd, 0, 3);
    var regions := Regions(ws, es, fd, 1, 3);
    assert Room(0) == MAX_MMAP_SIZE && Room(TWO_31) == MAX_MMAP_SIZE;
    assert ReadOn(es[1], fd) && ReadOn(es[2], fd);
    assert es[1].offset / TWO_31 == 0 && es[2].offset / TWO_31 == 1;
    assert regions == {0, 1};
    assert regions + {0} == {0, 1};
  }
}
