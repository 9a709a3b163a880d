/** The racing page markers (holetest.c, lines 94-156, 247-266 and 286-290): several threads write
    eight-byte markers into every page of one mapping, each at its own offset, in any interleaving. */
module PageMarkers {
  import opened Basics

  const MARK: nat := 8

  datatype Params = Params(pageSize: nat, threads: nat, pages: nat)

  function Step(p: Params): nat
    requires p.threads > 0
  {
    p.pageSize / p.threads
  }

  /** Offset of thread `t` in each page. */
  function PageOff(p: Params, t: nat): nat
    requires p.threads > 0
  {
    Step(p) / 2 + Step(p) * t
  }

  /** The loop that fills page_offs. */
  method FillPageOffs(p: Params, offs: array<nat>)
    requires p.threads > 0 && offs.Length == p.threads
    modifies offs
    ensures offs[0] == p.pageSize / p.threads / 2
    ensures forall t: nat | t + 1 < p.threads :: offs[t + 1] == offs[t] + p.pageSize / p.threads
    ensures forall t: nat | t < p.threads :: offs[t] == PageOff(p, t)
  {
    hide PageOff;
    var step := p.pageSize / p.threads;
    offs[0] := step / 2;
    NextOff(p, step, 0);
    var i: nat := 1;
    while i < p.threads
      invariant 1 <= i <= p.threads
      invariant forall t: nat | t < i :: offs[t] == PageOff(p, t)
    {
      offs[i] := offs[i - 1] + step;
      NextOff(p, step, i - 1);
      i := i + 1;
    }
    forall t: nat | t + 1 < p.threads ensures offs[t + 1] == offs[t] + step {
      NextOff(p, step, t);
    }
  }

  lemma NextOff(p: Params, step: nat, t: nat)
    requires p.threads > 0 && step == p.pageSize / p.threads
    ensures PageOff(p, 0) == step / 2
    ensures PageOff(p, t + 1) == PageOff(p, t) + step
  {
    assert step * (t + 1) == step * t + step;
  }

  /** First byte of the marker of thread `t` in page `i`. */
  function Slot(p: Params, t: nat, i: nat): nat
    requires p.threads > 0
  {
    PageOff(p, t) + p.pageSize * i
  }

  /** Every marker lies in its page, and markers of different threads in a page are apart. */
  ghost predicate SlotsFit(p: Params)
    requires p.threads > 0
  {
    && (forall t: nat | t < p.threads :: PageOff(p, t) + MARK <= p.pageSize)
    && (forall t: nat, u: nat | t < u < p.threads :: PageOff(p, t) + MARK <= PageOff(p, u))
  }

  lemma StepsApart(p: Params, t: nat, u: nat)
    requires p.threads > 0 && t < u
    ensures PageOff(p, t) + Step(p) <= PageOff(p, u)
  {
    Apart(Step(p), t, u);
  }

  /** What has to be checked of the page size: the last marker fits, and the spacing is a marker. */
  lemma SlotsFitExactly(p: Params)
    requires p.threads > 0
    ensures SlotsFit(p) <==>
            PageOff(p, p.threads - 1) + MARK <= p.pageSize && (p.threads == 1 || Step(p) >= MARK)
  {
    forall t: nat, u: nat | t < u < p.threads ensures PageOff(p, t) + Step(p) <= PageOff(p, u) {
      StepsApart(p, t, u);
    }
    if p.threads > 1 {
      assert PageOff(p, 1) == PageOff(p, 0) + Step(p);
    }
  }

  /** Sixteen bytes per thread are enough, whatever the number of threads. */
  lemma SixteenIsEnough(p: Params)
    requires p.threads > 0 && Step(p) >= 16
    ensures SlotsFit(p)
  {
    SlotsFitExactly(p);
    var n, step := p.threads, Step(p);
    assert step * (n - 1) + step == step * n;
    assert p.pageSize == step * n + p.pageSize % n;
  }

  lemma SlotsDisjoint(p: Params, t: nat, i: nat, u: nat, j: nat)
    requires p.threads > 0 && SlotsFit(p) && t < p.threads && u < p.threads && (t, i) != (u, j)
    ensures Slot(p, t, i) + MARK <= Slot(p, u, j) || Slot(p, u, j) + MARK <= Slot(p, t, i)
  {
    if i < j {
      Apart(p.pageSize, i, j);
    } else if j < i {
      Apart(p.pageSize, j, i);
    }
  }

  lemma SlotInFile(p: Params, t: nat, i: nat)
    requires p.threads > 0 && SlotsFit(p) && t < p.threads && i < p.pages
    ensures Slot(p, t, i) + MARK <= p.pageSize * p.pages
  {
    Apart(p.pageSize, i, p.pages);
  }

  // ----- the writers -----

  /** A marker as its eight bytes. */
  type Marker = m: seq<Byte> | |m| == 8 witness [0, 0, 0, 0, 0, 0, 0, 0]

  /** Threads or processes over a shared mapping, threads over one private mapping, and processes
      with a private mapping each. */
  datatype Mode = Shared | Private | PrivateForked

  /** What there is to see: copy 0 is the file (and every shared mapping of it), copy 1 the parent's
      private mapping, copy t + 2 the private mapping of child `t`. `next[t]` is the page writer `t`
      marks next. */
  datatype State = State(copies: seq<seq<Byte>>, next: seq<nat>)

  /** The copy writer `t` stores into. */
  function WrittenBy(mode: Mode, t: nat): nat {
    match mode
    case Shared => 0
    case Private => 1
    case PrivateForked => t + 2
  }

  /** The copy the parent verifies. */
  function ParentCopy(mode: Mode): nat {
    if mode == Shared then 0 else 1
  }

  function Stored(data: seq<Byte>, at: nat, m: Marker): (r: seq<Byte>)
    requires at + MARK <= |data|
    ensures |r| == |data|
    ensures forall b: nat | b < |data| :: r[b] == if at <= b < at + MARK then m[b - at] else data[b]
  {
    data[..at] + m + data[at + MARK..]
  }

  ghost predicate Sized(p: Params, ids: seq<Marker>, s: State) {
    && p.threads > 0 && |ids| == |s.next| == p.threads && |s.copies| == p.threads + 2
    && forall c: nat | c < p.threads + 2 :: |s.copies[c]| == p.pageSize * p.pages
  }

  /** Writer `t` marks its next page: one eight-byte store, or one pwrite. */
  ghost predicate Next(p: Params, mode: Mode, ids: seq<Marker>, s: State, t: nat, s': State) {
    && Sized(p, ids, s) && t < p.threads && s.next[t] < p.pages
    && var w, at := WrittenBy(mode, t), Slot(p, t, s.next[t]);
    && at + MARK <= |s.copies[w]|
    && s' == State(s.copies[w := Stored(s.copies[w], at, ids[t])], s.next[t := s.next[t] + 1])
  }

  ghost predicate IsRun(p: Params, mode: Mode, ids: seq<Marker>, ss: seq<State>, who: seq<nat>) {
    && |ss| == |who| + 1 && Sized(p, ids, ss[0])
    && (forall t: nat | t < p.threads :: ss[0].next[t] == 0)
    && (forall c: nat | c < p.threads + 2 :: ss[0].copies[c] == ss[0].copies[0])
    && forall k: nat | k < |who| :: Next(p, mode, ids, ss[k], who[k], ss[k + 1])
  }

  ghost predicate AllDone(p: Params, s: State) {
    |s.next| == p.threads && forall t: nat | t < p.threads :: s.next[t] == p.pages
  }

  ghost predicate Holds(data: seq<Byte>, at: nat, m: Marker) {
    at + MARK <= |data| && data[at..at + MARK] == m
  }

  /** Slot (t, i) of copy `c` holds the marker once its writer has been there, and what the file held
      at first otherwise. */
  ghost predicate MarkedAt(p: Params, mode: Mode, ids: seq<Marker>, d0: seq<Byte>, s: State, c: nat, t: nat, i: nat)
    requires Sized(p, ids, s) && t < p.threads && c < p.threads + 2
  {
    && Slot(p, t, i) + MARK <= |d0|
    && Holds(s.copies[c], Slot(p, t, i),
             if c == WrittenBy(mode, t) && i < s.next[t] then ids[t]
             else d0[Slot(p, t, i)..Slot(p, t, i) + MARK])
  }

  ghost predicate Marked(p: Params, mode: Mode, ids: seq<Marker>, d0: seq<Byte>, s: State) {
    && Sized(p, ids, s)
    && forall c: nat, t: nat, i: nat | c < p.threads + 2 && t < p.threads && i < p.pages ::
         MarkedAt(p, mode, ids, d0, s, c, t, i)
  }

  lemma StoreElsewhere(data: seq<Byte>, at: nat, m: Marker, slot: nat)
    requires at + MARK <= |data| && slot + MARK <= |data|
    requires slot + MARK <= at || at + MARK <= slot || slot == at
    ensures Stored(data, at, m)[slot..slot + MARK] == if slot == at then m else data[slot..slot + MARK]
  {
  }

  lemma NextMarkedAt(p: Params, mode: Mode, ids: seq<Marker>, d0: seq<Byte>, s: State, t: nat, s': State,
                     c: nat, u: nat, i: nat)
    requires p.threads > 0 && SlotsFit(p) && Next(p, mode, ids, s, t, s')
    requires u < p.threads && c < p.threads + 2 && MarkedAt(p, mode, ids, d0, s, c, u, i)
    ensures Sized(p, ids, s') && MarkedAt(p, mode, ids, d0, s', c, u, i)
  {
    if (u, i) != (t, s.next[t]) { SlotsDisjoint(p, u, i, t, s.next[t]); }
    hide SlotsFit, Slot;
    if c == WrittenBy(mode, t) {
      StoreElsewhere(s.copies[c], Slot(p, t, s.next[t]), ids[t], Slot(p, u, i));
    }
    hide Stored;
  }

  /** A store changes exactly one marker of one copy. */
  lemma NextMarked(p: Params, mode: Mode, ids: seq<Marker>, d0: seq<Byte>, s: State, t: nat, s': State)
    requires p.threads > 0 && SlotsFit(p) && Marked(p, mode, ids, d0, s) && Next(p, mode, ids, s, t, s')
    ensures Marked(p, mode, ids, d0, s')
  {
    hide SlotsFit, Slot, MarkedAt;
    NextMarkedAtSized(p, mode, ids, s, t, s');
    forall c: nat, u: nat, i: nat | c < p.threads + 2 && u < p.threads && i < p.pages
      ensures MarkedAt(p, mode, ids, d0, s', c, u, i)
    {
      NextMarkedAt(p, mode, ids, d0, s, t, s', c, u, i);
    }
  }

  lemma NextMarkedAtSized(p: Params, mode: Mode, ids: seq<Marker>, s: State, t: nat, s': State)
    requires Next(p, mode, ids, s, t, s')
    ensures Sized(p, ids, s')
  {
  }

  lemma {:induction false} RunMarked(p: Params, mode: Mode, ids: seq<Marker>, ss: seq<State>, who: seq<nat>, k: nat)
    requires p.threads > 0 && SlotsFit(p) && IsRun(p, mode, ids, ss, who) && k <= |who|
    ensures Sized(p, ids, ss[0]) && Marked(p, mode, ids, ss[0].copies[0], ss[k])
  {
    if k == 0 {
      forall c: nat, t: nat, i: nat | c < p.threads + 2 && t < p.threads && i < p.pages
        ensures MarkedAt(p, mode, ids, ss[0].copies[0], ss[0], c, t, i)
      {
        SlotInFile(p, t, i);
      }
    } else {
      RunMarked(p, mode, ids, ss, who, k - 1);
      NextMarked(p, mode, ids, ss[0].copies[0], ss[k - 1], who[k - 1], ss[k]);
    }
  }

  // ----- verify_mapping -----

  /** The (page, thread) pairs whose marker is not the wanted one. */
  ghost function Mismatching(p: Params, data: seq<Byte>, wanted: seq<Marker>): set<(nat, nat)>
    requires p.threads > 0 && |wanted| == p.threads
  {
    set i: nat, u: nat | i < p.pages && u < p.threads && !Holds(data, Slot(p, u, i), wanted[u]) :: (i, u)
  }

  /** Those in the first `n` pages, and of the first `t` threads of page `n`. */
  ghost function MismatchingBefore(p: Params, data: seq<Byte>, wanted: seq<Marker>, n: nat, t: nat): set<(nat, nat)>
    requires p.threads > 0 && |wanted| == p.threads && t <= p.threads
  {
    set i: nat, u: nat |
      i <= n && u < p.threads && (i < n || u < t) && !Holds(data, Slot(p, u, i), wanted[u]) :: (i, u)
  }

  lemma NextMarker(p: Params, data: seq<Byte>, wanted: seq<Marker>, n: nat, t: nat)
    requires p.threads > 0 && |wanted| == p.threads && t < p.threads
    ensures MismatchingBefore(p, data, wanted, n, t + 1) ==
            MismatchingBefore(p, data, wanted, n, t)
            + if Holds(data, Slot(p, t, n), wanted[t]) then {} else {(n, t)}
    ensures (n, t) !in MismatchingBefore(p, data, wanted, n, t)
  {
    hide Holds, Slot;
  }

  lemma NextPage(p: Params, data: seq<Byte>, wanted: seq<Marker>, n: nat)
    requires p.threads > 0 && |wanted| == p.threads
    ensures MismatchingBefore(p, data, wanted, n, p.threads) == MismatchingBefore(p, data, wanted, n + 1, 0)
    ensures MismatchingBefore(p, data, wanted, 0, 0) == {}
  {
    hide Holds, Slot;
  }

  /** verify_mapping returns exactly the number of mismatching markers. */
  method VerifyMapping(p: Params, va: array<Byte>, offs: array<nat>, wanted: seq<Marker>) returns (errcnt: nat)
    requires p.threads > 0 && SlotsFit(p) && |wanted| == p.threads == offs.Length
    requires va.Length == p.pageSize * p.pages
    requires forall t: nat | t < p.threads :: offs[t] == PageOff(p, t)
    ensures errcnt == |Mismatching(p, va[..], wanted)|
  {
    hide Mismatching, MismatchingBefore, SlotsFit, PageOff;
    errcnt := 0;
    var base, page: nat := 0, 0;
    NextPage(p, va[..], wanted, 0);
    while page < p.pages
      invariant page <= p.pages && base == p.pageSize * page
      invariant errcnt == |MismatchingBefore(p, va[..], wanted, page, 0)|
    {
      var i: nat := 0;
      while i < p.threads
        invariant i <= p.threads && errcnt == |MismatchingBefore(p, va[..], wanted, page, i)|
      {
        SlotInFile(p, i, page);
        var at := base + offs[i];
        assert at == Slot(p, i, page);
        assert va[..][at..at + MARK] == va[at..at + MARK];
        NextMarker(p, va[..], wanted, page, i);
        if va[at..at + MARK] != wanted[i] {
          errcnt := errcnt + 1;
        }
        i := i + 1;
      }
      NextPage(p, va[..], wanted, page);
      assert p.pageSize * (page + 1) == p.pageSize * page + p.pageSize;
      base := base + p.pageSize;
      page := page + 1;
    }
    AllPages(p, va[..], wanted);
  }

  lemma AllPages(p: Params, data: seq<Byte>, wanted: seq<Marker>)
    requires p.threads > 0 && |wanted| == p.threads
    ensures MismatchingBefore(p, data, wanted, p.pages, 0) == Mismatching(p, data, wanted)
  {
    hide Holds, Slot;
  }

  lemma NoMismatch(p: Params, data: seq<Byte>, wanted: seq<Marker>)
    requires p.threads > 0 && |wanted| == p.threads
    ensures |Mismatching(p, data, wanted)| == 0 <==>
            forall i: nat, u: nat | i < p.pages && u < p.threads :: Holds(data, Slot(p, u, i), wanted[u])
  {
    hide Holds, Slot;
    var m := Mismatching(p, data, wanted);
    if i: nat, u: nat :| i < p.pages && u < p.threads && !Holds(data, Slot(p, u, i), wanted[u]) {
      assert (i, u) in m;
    } else {
      assert m == {};
    }
  }

  // ----- test_this -----

  const ZERO_MARK: Marker := [0, 0, 0, 0, 0, 0, 0, 0]

  function Blank(n: nat): (r: seq<Marker>)
    ensures |r| == n
  {
    seq(n, _ => ZERO_MARK)
  }

  /** What a child with its own private mapping expects: its own marker and nobody else's. */
  function Alone(ids: seq<Marker>, t: nat): (r: seq<Marker>)
    requires t < |ids|
    ensures |r| == |ids|
  {
    Blank(|ids|)[t := ids[t]]
  }

  /** What the parent expects of the mapping it verifies. */
  function ParentWants(mode: Mode, ids: seq<Marker>): (r: seq<Marker>)
    ensures |r| == |ids|
  {
    if mode == PrivateForked then Blank(|ids|) else ids
  }

  /** The end of test_this: the mismatches in the parent's mapping and, for private mappings, in the
      file. */
  method CountErrors(p: Params, mode: Mode, mapping: array<Byte>, file: array<Byte>, offs: array<nat>,
                     ids: seq<Marker>) returns (errcnt: nat)
    requires p.threads > 0 && SlotsFit(p) && |ids| == p.threads == offs.Length
    requires mapping.Length == file.Length == p.pageSize * p.pages
    requires forall t: nat | t < p.threads :: offs[t] == PageOff(p, t)
    ensures errcnt == |Mismatching(p, mapping[..], if mode == PrivateForked then Blank(p.threads) else ids)|
                      + if mode == Shared then 0 else |Mismatching(p, file[..], Blank(p.threads))|
  {
    errcnt := VerifyMapping(p, mapping, offs, if mode == PrivateForked then Blank(p.threads) else ids);
    if mode != Shared {
      var more := VerifyMapping(p, file, offs, Blank(p.threads));
      errcnt := errcnt + more;
    }
  }

  lemma AllZero(data: seq<Byte>, at: nat)
    requires at + MARK <= |data| && forall b | b in data :: b == 0
    ensures data[at..at + MARK] == ZERO_MARK
  {
    var mark := data[at..at + MARK];
    forall x: nat | x < MARK ensures mark[x] == 0 {
      assert mark[x] == data[at + x] && data[at + x] in data;
    }
  }

  /** A copy in which every writer that stores into it is done, and which was zero before. */
  lemma CopyVerifies(p: Params, mode: Mode, ids: seq<Marker>, ss: seq<State>, who: seq<nat>, k: nat,
                     c: nat, wanted: seq<Marker>)
    requires p.threads > 0 && SlotsFit(p) && IsRun(p, mode, ids, ss, who) && k <= |who|
    requires AllDone(p, ss[k]) && c < p.threads + 2 && |wanted| == p.threads
    requires Sized(p, ids, ss[0]) && Sized(p, ids, ss[k])
    requires forall t: nat | t < p.threads ::
               if c == WrittenBy(mode, t) then wanted[t] == ids[t]
               else wanted[t] == ZERO_MARK && forall b | b in ss[0].copies[0] :: b == 0
    ensures |Mismatching(p, ss[k].copies[c], wanted)| == 0
  {
    RunMarked(p, mode, ids, ss, who, k);
    var d0 := ss[0].copies[0];
    forall i: nat, u: nat | i < p.pages && u < p.threads
      ensures Holds(ss[k].copies[c], Slot(p, u, i), wanted[u])
    {
      assert MarkedAt(p, mode, ids, d0, ss[k], c, u, i);
      if c != WrittenBy(mode, u) { AllZero(d0, Slot(p, u, i)); }
    }
    NoMismatch(p, ss[k].copies[c], wanted);
  }

  /** Shared mapping: once all writers have marked all pages, in whatever order, the mapping verifies
      without error, whatever the file held before. */
  lemma SharedVerifies(p: Params, ids: seq<Marker>, ss: seq<State>, who: seq<nat>, k: nat)
    requires p.threads > 0 && SlotsFit(p) && IsRun(p, Shared, ids, ss, who) && k <= |who| && AllDone(p, ss[k])
    ensures Sized(p, ids, ss[k]) && |Mismatching(p, ss[k].copies[0], ids)| == 0
  {
    RunMarked(p, Shared, ids, ss, who, k);
    CopyVerifies(p, Shared, ids, ss, who, k, 0, ids);
  }

  /** In every mode and interleaving a zero-filled file gives no error once all writers are done. */
  lemma TestThisClean(p: Params, mode: Mode, ids: seq<Marker>, ss: seq<State>, who: seq<nat>, k: nat)
    requires p.threads > 0 && SlotsFit(p) && IsRun(p, mode, ids, ss, who) && k <= |who| && AllDone(p, ss[k])
    requires Sized(p, ids, ss[0]) && forall b | b in ss[0].copies[0] :: b == 0
    ensures Sized(p, ids, ss[k])
    ensures |Mismatching(p, ss[k].copies[ParentCopy(mode)], ParentWants(mode, ids))| == 0
    ensures mode != Shared ==> |Mismatching(p, ss[k].copies[0], Blank(p.threads))| == 0
  {
    RunMarked(p, mode, ids, ss, who, k);
    CopyVerifies(p, mode, ids, ss, who, k, ParentCopy(mode), ParentWants(mode, ids));
    if mode != Shared { CopyVerifies(p, mode, ids, ss, who, k, 0, Blank(p.threads)); }
  }

  /** A forked child's own check of its private mapping, made when it has marked its last page -
      however far the others are. */
  lemma ChildVerifies(p: Params, ids: seq<Marker>, ss: seq<State>, who: seq<nat>, k: nat, t: nat)
    requires p.threads > 0 && SlotsFit(p) && IsRun(p, PrivateForked, ids, ss, who) && k <= |who|
    requires t < p.threads && |ss[k].next| == p.threads && ss[k].next[t] == p.pages
    requires Sized(p, ids, ss[0]) && forall b | b in ss[0].copies[0] :: b == 0
    ensures Sized(p, ids, ss[k]) && |Mismatching(p, ss[k].copies[t + 2], Alone(ids, t))| == 0
  {
    RunMarked(p, PrivateForked, ids, ss, who, k);
    var d0 := ss[0].copies[0];
    forall i: nat, u: nat | i < p.pages && u < p.threads
      ensures Holds(ss[k].copies[t + 2], Slot(p, u, i), Alone(ids, t)[u])
    {
      assert MarkedAt(p, PrivateForked, ids, d0, ss[k], t + 2, u, i);
      if u != t { AllZero(d0, Slot(p, u, i)); }
    }
    NoMismatch(p, ss[k].copies[t + 2], Alone(ids, t));
  }

  /** While some writer has a page left that did not hold its marker before, the copy it writes does
      not verify: the check is not vacuous. */
  lemma UnfinishedFails(p: Params, mode: Mode, ids: seq<Marker>, ss: seq<State>, who: seq<nat>, k: nat, t: nat)
    requires p.threads > 0 && SlotsFit(p) && IsRun(p, mode, ids, ss, who) && k <= |who|
    requires t < p.threads && |ss[k].next| == p.threads && ss[k].next[t] < p.pages
    requires |ss[0].copies| > 0 && !Holds(ss[0].copies[0], Slot(p, t, ss[k].next[t]), ids[t])
    ensures Sized(p, ids, ss[k]) && |Mismatching(p, ss[k].copies[WrittenBy(mode, t)], ids)| > 0
  {
    RunMarked(p, mode, ids, ss, who, k);
    assert MarkedAt(p, mode, ids, ss[0].copies[0], ss[k], WrittenBy(mode, t), t, ss[k].next[t]);
    NoMismatch(p, ss[k].copies[WrittenBy(mode, t)], ids);
  }

  // ----- complete runs -----

  function Start(p: Params, data: seq<Byte>): State
    requires p.threads > 0
  {
    State(seq(p.threads + 2, _ => data), seq(p.threads, _ => 0))
  }

  /** Pages still to be marked. */
  function ToDo(p: Params): nat -> nat {
    n => if n < p.pages then p.pages - n else 0
  }

  /** Runs can be continued until all is done: every mode has complete runs from every file. */
  lemma {:induction false} Completed(p: Params, mode: Mode, ids: seq<Marker>, ss: seq<State>, who: seq<nat>)
    returns (ts: seq<State>, whom: seq<nat>)
    requires p.threads > 0 && SlotsFit(p) && IsRun(p, mode, ids, ss, who)
    requires Sized(p, ids, ss[|who|]) && forall t: nat | t < p.threads :: ss[|who|].next[t] <= p.pages
    ensures IsRun(p, mode, ids, ts, whom) && AllDone(p, ts[|whom|]) && ts[0] == ss[0]
    decreases Total(ToDo(p), ss[|who|].next)
  {
    var s := ss[|who|];
    if AllDone(p, s) {
      ts, whom := ss, who;
    } else {
      var t: nat :| t < p.threads && s.next[t] != p.pages;
      SlotInFile(p, t, s.next[t]);
      var w, at := WrittenBy(mode, t), Slot(p, t, s.next[t]);
      var s' := State(s.copies[w := Stored(s.copies[w], at, ids[t])], s.next[t := s.next[t] + 1]);
      TotalUpdate(ToDo(p), s.next, t, s.next[t] + 1);
      assert Next(p, mode, ids, s, t, s');
      NextMarkedAtSized(p, mode, ids, s, t, s');
      hide Slot, SlotsFit, Stored;
      forall k: nat | k < |who + [t]| ensures Next(p, mode, ids, (ss + [s'])[k], (who + [t])[k], (ss + [s'])[k + 1]) {
      }
      ts, whom := Completed(p, mode, ids, ss + [s'], who + [t]);
    }
  }

  lemma SomeRunCompletes(p: Params, mode: Mode, ids: seq<Marker>, data: seq<Byte>)
    returns (ss: seq<State>, who: seq<nat>)
    requires p.threads > 0 && SlotsFit(p) && |ids| == p.threads && |data| == p.pageSize * p.pages
    ensures IsRun(p, mode, ids, ss, who) && AllDone(p, ss[|who|]) && ss[0].copies[0] == data
  {
    ss, who := Completed(p, mode, ids, [Start(p, data)], []);
  }
}
