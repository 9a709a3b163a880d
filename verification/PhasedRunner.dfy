/** The phased workload runner (Util/NVTMWorkloadHarness.hpp, lines 132, 166-170, 239-253 and
    294-341) over cyclic barriers, for any number of threads, any operation count and any moment at
    which the run-time alarm sets the finished flag. One run of RunOps with as many threads as
    configured; operations do not report completions themselves. */
module PhasedRunner {
  import opened Basics
  import opened CyclicSpec

  /** Fresh; joined the start barrier; in StartTiming (thread 0); about to join the run barrier;
      joined it; at the loop test; calling op_routine; about to report; about to join the run
      barrier again; joined it; returned. */
  datatype Pc = Fresh | InStart | Timing | BeforeRun | InRun | Looping | Calling | Reporting
              | BeforeEnd | InEnd | Returned

  /** `ops` is the C variable threadOps, `left` the iterations of the counted loop still to do, and
      `calls` the calls of op_routine made so far. */
  datatype Thread = Thread(pc: Pc, ops: nat, left: nat, calls: nat)

  datatype State = State(threads: seq<Thread>, start: seq<Counts>, run: seq<Counts>,
                         timed: bool, finished: bool, completed: nat)

  datatype Params = Params(n: nat, opCount: nat, opCountSet: bool)

  /** The per-thread count, narrowed to an unsigned int as it is read. */
  function Quota(p: Params): nat
    requires p.n > 0
  {
    (p.opCount / p.n) % TWO_32
  }

  predicate IsDone(p: Params, s: State) {
    if p.opCount == 0 && p.opCountSet then true
    else if p.opCount == 0 then s.finished
    else s.completed % TWO_32 >= p.opCount
  }

  ghost predicate Init(p: Params, s: State) {
    && p.n > 0 && |s.threads| == |s.start| == |s.run| == p.n
    && (forall i: nat | i < p.n ::
          s.threads[i] == Thread(Fresh, 0, 0, 0) && s.start[i] == s.run[i] == Counts(0, 0))
    && !s.timed && s.completed == 0
  }

  ghost predicate Sized(p: Params, s: State) {
    p.n > 0 && |s.threads| == |s.start| == |s.run| == p.n
  }

  ghost predicate Enabled(p: Params, s: State, i: nat)
    requires Sized(p, s) && i < p.n
  {
    match s.threads[i].pc
    case InStart => CanDepart(s.start, i)
    case InRun => CanDepart(s.run, i)
    case InEnd => CanDepart(s.run, i)
    case Returned => false
    case _ => true
  }

  ghost function Step(p: Params, s: State, i: nat): State
    requires Sized(p, s) && i < p.n
  {
    var t := s.threads[i];
    match t.pc
    case Fresh =>
      s.(threads := s.threads[i := Thread(InStart, Quota(p), Quota(p), 0)], start := Arrive(s.start, i))
    case InStart =>
      s.(threads := s.threads[i := t.(pc := if i == 0 then Timing else BeforeRun)], start := Depart(s.start, i))
    case Timing => s.(threads := s.threads[i := t.(pc := BeforeRun)], timed := true)
    case BeforeRun => s.(threads := s.threads[i := t.(pc := InRun)], run := Arrive(s.run, i))
    case InRun => s.(threads := s.threads[i := t.(pc := Looping)], run := Depart(s.run, i))
    case Looping =>
      var stop := if Quota(p) == 0 then IsDone(p, s) else t.left == 0;
      s.(threads := s.threads[i := t.(pc := if stop then Reporting else Calling)])
    case Calling =>
      var t' := if Quota(p) == 0 then t.(ops := (t.ops + 1) % TWO_32)
                else t.(left := if t.left == 0 then 0 else t.left - 1);
      s.(threads := s.threads[i := t'.(pc := Looping, calls := t.calls + 1)])
    case Reporting => s.(threads := s.threads[i := t.(pc := BeforeEnd)], completed := s.completed + t.ops)
    case BeforeEnd => s.(threads := s.threads[i := t.(pc := InEnd)], run := Arrive(s.run, i))
    case InEnd => s.(threads := s.threads[i := t.(pc := Returned)], run := Depart(s.run, i))
    case Returned => s
  }

  /** A thread moves, or the alarm goes off. */
  ghost predicate Next(p: Params, s: State, s': State) {
    && Sized(p, s)
    && (s' == s.(finished := true)
        || exists i: nat :: i < p.n && Enabled(p, s, i) && s' == Step(p, s, i))
  }

  ghost predicate IsRun(p: Params, ss: seq<State>) {
    && |ss| > 0 && Init(p, ss[0])
    && forall k: nat | k + 1 < |ss| :: Next(p, ss[k], ss[k + 1])
  }

  // ----- the invariant -----

  function StartCounts(pc: Pc): Counts {
    match pc
    case Fresh => Counts(0, 0)
    case InStart => Counts(1, 0)
    case _ => Counts(1, 1)
  }

  function RunCounts(pc: Pc): Counts {
    match pc
    case Fresh => Counts(0, 0)
    case InStart => Counts(0, 0)
    case Timing => Counts(0, 0)
    case BeforeRun => Counts(0, 0)
    case InRun => Counts(1, 0)
    case InEnd => Counts(2, 1)
    case Returned => Counts(2, 2)
    case _ => Counts(1, 1)
  }

  predicate Reported(pc: Pc) {
    pc in {BeforeEnd, InEnd, Returned}
  }

  predicate ThreadInv(p: Params, t: Thread)
    requires p.n > 0
  {
    && (RunCounts(t.pc).completed == 0 ==> t.calls == 0)
    && (t.pc != Fresh ==>
          if Quota(p) == 0 then t.ops == t.calls % TWO_32
          else t.ops == Quota(p) && t.calls + t.left == Quota(p))
    && (t.pc == Calling && Quota(p) != 0 ==> t.left > 0)
    && (t.pc == Reporting || Reported(t.pc) ==> Quota(p) != 0 ==> t.left == 0)
  }

  /** What a thread has added to the total so far. */
  function Added(t: Thread): nat {
    if Reported(t.pc) then t.ops else 0
  }

  predicate At(p: Params, s: State, i: nat)
    requires i < p.n && |s.threads| == |s.start| == |s.run| == p.n
  {
    && ThreadInv(p, s.threads[i])
    && s.start[i] == StartCounts(s.threads[i].pc) && s.run[i] == RunCounts(s.threads[i].pc)
    && (i == 0 ==> (s.timed <==> s.threads[i].pc !in {Fresh, InStart, Timing}))
    && (s.threads[i].pc == Timing ==> i == 0)
  }

  ghost predicate Inv(p: Params, s: State) {
    && Sized(p, s)
    && (forall i: nat | i < p.n :: At(p, s, i))
    && (forall i: nat, j: nat | i < p.n && j < p.n :: s.start[i].completed <= s.start[j].entered)
    && (forall i: nat, j: nat | i < p.n && j < p.n :: s.run[i].completed <= s.run[j].entered)
    && s.completed == Total(Added, s.threads)
  }

  lemma {:induction false} NothingReported(ts: seq<Thread>)
    requires forall t | t in ts :: !Reported(t.pc)
    ensures Total(Added, ts) == 0
  {
    if ts != [] { NothingReported(ts[1..]); }
  }

  lemma StepAt(p: Params, s: State, i: nat, j: nat)
    requires Sized(p, s) && i < p.n && j < p.n && Enabled(p, s, i) && At(p, s, i) && At(p, s, j)
    ensures Sized(p, Step(p, s, i)) && At(p, Step(p, s, i), j)
  {
    hide Quota, IsDone;
    if i == j {
      StepThread(p, s, i);
    }
  }

  lemma StepThread(p: Params, s: State, i: nat)
    requires Sized(p, s) && i < p.n && Enabled(p, s, i) && ThreadInv(p, s.threads[i])
    ensures Sized(p, Step(p, s, i)) && ThreadInv(p, Step(p, s, i).threads[i])
  {
    hide Quota, IsDone, CanDepart;
    var t := s.threads[i];
    Counted(t.ops, t.calls);
    if t.pc == Calling {
      assert Step(p, s, i).threads[i].calls == t.calls + 1;
    }
  }

  lemma Counted(ops: nat, calls: nat)
    ensures ops == calls % TWO_32 ==> (ops + 1) % TWO_32 == (calls + 1) % TWO_32
    ensures TWO_32 > 0 && 0 % TWO_32 == 0
  {
  }

  /** Counts change only for the thread that moves, and a departure has waited for everyone. */
  lemma StepCounts(p: Params, s: State, i: nat, a: nat, b: nat)
    requires Sized(p, s) && i < p.n && a < p.n && b < p.n && Enabled(p, s, i)
    requires At(p, s, i) && s.run[a].completed <= s.run[b].entered && s.start[a].completed <= s.start[b].entered
    ensures Sized(p, Step(p, s, i))
    ensures Step(p, s, i).start[a].completed <= Step(p, s, i).start[b].entered
    ensures Step(p, s, i).run[a].completed <= Step(p, s, i).run[b].entered
  {
    hide ThreadInv, Quota, IsDone;
  }

  lemma StepTotal(p: Params, s: State, i: nat)
    requires Sized(p, s) && i < p.n && Enabled(p, s, i) && s.completed == Total(Added, s.threads)
    ensures Step(p, s, i).completed == Total(Added, Step(p, s, i).threads)
  {
    hide Quota, IsDone, Enabled, Total;
    TotalUpdate(Added, s.threads, i, Step(p, s, i).threads[i]);
  }

  lemma StepInv(p: Params, s: State, i: nat)
    requires Inv(p, s) && i < p.n && Enabled(p, s, i)
    ensures Inv(p, Step(p, s, i))
  {
    hide At, Step, Enabled, Total;
    var s' := Step(p, s, i);
    StepTotal(p, s, i);
    StepAt(p, s, i, i);
    forall j: nat | j < p.n ensures At(p, s', j) { StepAt(p, s, i, j); }
    forall a: nat, b: nat | a < p.n && b < p.n
      ensures s'.start[a].completed <= s'.start[b].entered && s'.run[a].completed <= s'.run[b].entered
    {
      StepCounts(p, s, i, a, b);
    }
  }

  lemma {:induction false} RunInv(p: Params, ss: seq<State>, k: nat)
    requires IsRun(p, ss) && k < |ss|
    ensures Inv(p, ss[k])
  {
    if k == 0 {
      NothingReported(ss[0].threads);
    } else {
      RunInv(p, ss, k - 1);
      var s, s' := ss[k - 1], ss[k];
      assert Next(p, s, s');
      if s' != s.(finished := true) {
        var i: nat :| i < p.n && Enabled(p, s, i) && s' == Step(p, s, i);
        StepInv(p, s, i);
      } else {
        forall j: nat | j < p.n ensures At(p, s', j) { assert At(p, s, j); }
      }
    }
  }

  // ----- what the phases guarantee -----

  /** op_routine is only ever called, and has only ever been called, once thread 0 has finished
      StartTiming. */
  lemma OpsAreTimed(p: Params, ss: seq<State>, k: nat, i: nat)
    requires IsRun(p, ss) && k < |ss| && i < p.n
    ensures Sized(p, ss[k])
    ensures ss[k].threads[i].pc == Calling || ss[k].threads[i].calls > 0 ==> ss[k].timed
  {
    RunInv(p, ss, k);
    var s := ss[k];
    assert At(p, s, i) && At(p, s, 0);
    assert s.run[i].completed <= s.run[0].entered;
  }

  /** The three joins hold everybody back: nobody is past the start barrier, and timing has not begun,
      before all have reached it; nobody is past the run barrier before all have reached that, and
      nobody has returned before all have reported. */
  lemma Gates(p: Params, ss: seq<State>, k: nat, i: nat, j: nat)
    requires IsRun(p, ss) && k < |ss| && i < p.n && j < p.n
    ensures Sized(p, ss[k])
    ensures var s := ss[k];
            var at, other := s.threads[i].pc, s.threads[j].pc;
            && (s.timed || at !in {Fresh, InStart} ==> other != Fresh)
            && (at !in {Fresh, InStart, Timing, BeforeRun, InRun} ==> other !in {Fresh, InStart, Timing, BeforeRun})
            && (at == Returned ==> other in {InEnd, Returned})
  {
    RunInv(p, ss, k);
    var s := ss[k];
    assert At(p, s, i) && At(p, s, j) && At(p, s, 0);
    assert s.run[i].completed <= s.run[j].entered && s.start[i].completed <= s.start[j].entered;
    assert s.start[0].completed <= s.start[j].entered;
  }

  /** The runner uses its barriers as they are meant to be used: whoever joins one is outside it. */
  lemma JoinsFromOutside(p: Params, ss: seq<State>, k: nat, i: nat)
    requires IsRun(p, ss) && k < |ss| && i < p.n
    ensures Sized(p, ss[k])
    ensures ss[k].threads[i].pc == Fresh ==> ss[k].start[i].entered == ss[k].start[i].completed
    ensures ss[k].threads[i].pc in {BeforeRun, BeforeEnd} ==> ss[k].run[i].entered == ss[k].run[i].completed
  {
    RunInv(p, ss, k);
    assert At(p, ss[k], i);
  }

  /** Timing is thread 0's work, and is over exactly when thread 0 is past it. */
  lemma ZeroTimes(p: Params, ss: seq<State>, k: nat, i: nat)
    requires IsRun(p, ss) && k < |ss| && i < p.n
    ensures Sized(p, ss[k])
    ensures ss[k].threads[i].pc == Timing ==> i == 0
    ensures ss[k].timed <==> ss[k].threads[0].pc !in {Fresh, InStart, Timing}
  {
    RunInv(p, ss, k);
    assert At(p, ss[k], i) && At(p, ss[k], 0);
  }

  /** Why a thread is past its loop: it has made its share of calls, or - without a share - the end
      was decided; and a count given as zero allows no call. */
  predicate MayLeave(p: Params, finished: bool, t: Thread)
    requires p.n > 0
  {
    && (t.pc == Reporting || Reported(t.pc) ==>
          if Quota(p) != 0 then t.calls == Quota(p)
          else p.opCount == 0 && (p.opCountSet || finished))
    && (p.opCount == 0 && p.opCountSet ==> t.calls == 0 && t.pc != Calling)
  }

  ghost predicate Justified(p: Params, s: State) {
    p.n > 0 && forall t | t in s.threads :: MayLeave(p, s.finished, t)
  }

  lemma QuotaOfNone(p: Params)
    requires p.n > 0 && p.opCount == 0
    ensures Quota(p) == 0
  {
  }

  lemma ThreadMayLeave(p: Params, s: State, i: nat)
    requires Sized(p, s) && i < p.n && At(p, s, i) && MayLeave(p, s.finished, s.threads[i])
    requires Quota(p) == 0 && p.opCount > 0 ==> s.completed == 0
    ensures MayLeave(p, s.finished, Step(p, s, i).threads[i])
  {
    if p.opCount == 0 { QuotaOfNone(p); }
    hide Quota;
  }

  lemma StepJustified(p: Params, s: State, i: nat)
    requires Inv(p, s) && i < p.n && Enabled(p, s, i) && Justified(p, s)
    requires Quota(p) == 0 && p.opCount > 0 ==> s.completed == 0
    ensures Justified(p, Step(p, s, i))
  {
    assert At(p, s, i) && s.threads[i] in s.threads;
    ThreadMayLeave(p, s, i);
    hide Quota, Enabled, Inv, MayLeave, IsDone, At;
    var s' := Step(p, s, i);
    assert forall t | t in s'.threads :: t in s.threads || t == s'.threads[i];
  }

  lemma {:induction false} RunJustified(p: Params, ss: seq<State>, k: nat)
    requires IsRun(p, ss) && k < |ss|
    ensures Justified(p, ss[k])
  {
    if k > 0 {
      RunJustified(p, ss, k - 1);
      RunInv(p, ss, k - 1);
      var s, s' := ss[k - 1], ss[k];
      assert Next(p, s, s');
      if s' != s.(finished := true) {
        var i: nat :| i < p.n && Enabled(p, s, i) && s' == Step(p, s, i);
        if Quota(p) == 0 && p.opCount > 0 { ZeroShareNeverEnds(p, ss, k - 1, i); }
        hide *;
        StepJustified(p, s, i);
      }
    }
  }

  /** In every run a thread is past its loop only for a reason: with a share it has made exactly so
      many calls; without one no count was given, and the count was given as zero or the alarm has gone
      off. A count given as zero allows no call at all. */
  lemma WhyLeft(p: Params, ss: seq<State>, k: nat, i: nat)
    requires IsRun(p, ss) && k < |ss| && i < p.n
    ensures |ss[k].threads| == p.n
    ensures var t := ss[k].threads[i];
            && (t.pc in {Reporting, BeforeEnd, InEnd, Returned} ==>
                  if Quota(p) != 0 then t.calls == Quota(p)
                  else p.opCount == 0 && (p.opCountSet || ss[k].finished))
            && (p.opCount == 0 && p.opCountSet ==> t.calls == 0 && t.pc != Calling)
  {
    RunInv(p, ss, k);
    RunJustified(p, ss, k);
    assert ss[k].threads[i] in ss[k].threads;
  }

  /** Calls made, and the one about to be made. */
  function Begun(t: Thread): nat {
    t.calls + if t.pc == Calling then 1 else 0
  }

  lemma StepBegun(p: Params, s: State, i: nat, j: nat)
    requires Sized(p, s) && i < p.n && j < p.n && At(p, s, i) && Enabled(p, s, i)
    requires Quota(p) == 0 && IsDone(p, s)
    ensures Begun(Step(p, s, i).threads[j]) == Begun(s.threads[j])
  {
    hide Quota, IsDone;
  }

  lemma NextBegun(p: Params, s: State, s': State, j: nat)
    requires Inv(p, s) && j < p.n && Next(p, s, s')
    requires p.opCount == 0 && (p.opCountSet || s.finished)
    ensures Sized(p, s') && Begun(s'.threads[j]) == Begun(s.threads[j]) && (s.finished ==> s'.finished)
  {
    QuotaOfNone(p);
    if s' != s.(finished := true) {
      var i: nat :| i < p.n && Enabled(p, s, i) && s' == Step(p, s, i);
      assert At(p, s, i);
      StepBegun(p, s, i, j);
      hide Quota, IsDone, Inv, At, Enabled;
    }
  }

  /** In timed mode no thread begins another call once the alarm has gone off: each makes at most the
      one it is about to make. */
  lemma {:induction false} NoMoreCalls(p: Params, ss: seq<State>, j: nat, k: nat, i: nat)
    requires IsRun(p, ss) && j <= k < |ss| && i < p.n
    requires p.opCount == 0 && (p.opCountSet || ss[j].finished)
    ensures |ss[j].threads| == |ss[k].threads| == p.n && (ss[j].finished ==> ss[k].finished)
    ensures Begun(ss[k].threads[i]) == Begun(ss[j].threads[i])
    decreases k - j
  {
    RunInv(p, ss, k);
    if j < k {
      RunInv(p, ss, k - 1);
      assert Next(p, ss[k - 1], ss[k - 1 + 1]);
      hide Inv, Next, Begun, Init;
      NoMoreCalls(p, ss, j, k - 1, i);
      NextBegun(p, ss[k - 1], ss[k], i);
    }
  }

  function Calls(t: Thread): nat {
    t.calls
  }

  /** The calls as the thread's 32-bit counter sees them. */
  function CallsMod(t: Thread): nat {
    t.calls % TWO_32
  }

  lemma {:induction false} AllReported(p: Params, ts: seq<Thread>)
    requires p.n > 0 && forall t | t in ts :: ThreadInv(p, t) && Reported(t.pc)
    ensures Quota(p) == 0 ==> Total(Added, ts) == Total(CallsMod, ts)
    ensures Quota(p) != 0 ==> Total(Calls, ts) == |ts| * Quota(p) == Total(Added, ts)
  {
    if ts != [] {
      assert ts[0] in ts && ThreadInv(p, ts[0]);
      AllReported(p, ts[1..]);
      OneMore(|ts|, Quota(p));
      hide Quota;
    }
  }

  lemma OneMore(k: nat, q: nat)
    requires k > 0
    ensures k * q == q + (k - 1) * q
  {
  }

  /** The 32-bit counters never see more calls than were made, and see them all exactly when none of
      them has wrapped. */
  lemma {:induction false} NoWrap(ts: seq<Thread>)
    ensures Total(CallsMod, ts) <= Total(Calls, ts)
    ensures Total(CallsMod, ts) == Total(Calls, ts) <==> forall t | t in ts :: t.calls < TWO_32
  {
    if ts != [] {
      NoWrap(ts[1..]);
      assert forall t | t in ts :: t == ts[0] || t in ts[1..];
      assert ts[0] in ts && forall t | t in ts[1..] :: t in ts;
    }
  }

  /** Once any thread is past the final barrier: with a nonzero quota the reported total is the number
      of calls made, n times the quota; with a zero quota it is that number exactly when no thread
      has called 2^32 times, and otherwise counts each thread's calls modulo 2^32. */
  lemma FinalCount(p: Params, ss: seq<State>, k: nat, i: nat)
    requires IsRun(p, ss) && k < |ss| && i < p.n && |ss[k].threads| == p.n
    requires ss[k].threads[i].pc == Returned
    ensures var s := ss[k];
            && (Quota(p) == 0 ==> s.completed == Total(CallsMod, s.threads))
            && (s.completed == Total(Calls, s.threads) <==>
                  Quota(p) != 0 || forall t | t in s.threads :: t.calls < TWO_32)
            && (Quota(p) != 0 ==> s.completed == Total(Calls, s.threads) == p.n * Quota(p))
  {
    RunInv(p, ss, k);
    var s := ss[k];
    forall t | t in s.threads ensures ThreadInv(p, t) && Reported(t.pc) {
      var j: nat :| j < p.n && s.threads[j] == t;
      assert s.run[i].completed <= s.run[j].entered;
      assert At(p, s, i) && At(p, s, j);
    }
    AllReported(p, s.threads);
    NoWrap(s.threads);
  }

  /** What a thread reads is the share modulo 2^32, and the total comes within n of the count asked for
      exactly when the share fits an unsigned int; it is then n * floor(opCount / n). */
  lemma ShareFits(p: Params)
    requires p.n > 0
    ensures 0 <= Quota(p) < 0x1_0000_0000 && (p.opCount / p.n - Quota(p)) % 0x1_0000_0000 == 0
    ensures p.opCount / p.n < TWO_32 <==> 0 <= p.opCount - p.n * Quota(p) < p.n
    ensures p.opCount / p.n < TWO_32 ==> p.n * Quota(p) == p.n * (p.opCount / p.n)
  {
    NarrowedShare(p.opCount, p.n, p.opCount / p.n, Quota(p));
  }

  lemma NarrowedShare(count: nat, n: nat, share: nat, quota: nat)
    requires n > 0 && share == count / n && quota <= share
    ensures quota == share <==> 0 <= count - n * quota < n
  {
    assert count == n * share + count % n;
    if quota < share {
      Apart(n, quota, share);
    }
  }

  /** With a positive count whose per-thread share is (or is truncated to) zero, the loops wait for
      completions that are only reported after the loops: no thread ever gets past its loop. */
  lemma {:induction false} ZeroShareNeverEnds(p: Params, ss: seq<State>, k: nat, i: nat)
    requires IsRun(p, ss) && k < |ss| && i < p.n && p.opCount > 0 && Quota(p) == 0
    ensures Sized(p, ss[k]) && ss[k].completed == 0
    ensures ss[k].threads[i].pc != Reporting && !Reported(ss[k].threads[i].pc)
    decreases k
  {
    RunInv(p, ss, k);
    if k > 0 {
      var s, s' := ss[k - 1], ss[k];
      assert Next(p, s, s');
      ZeroShareNeverEnds(p, ss, k - 1, i);
      if s' != s.(finished := true) {
        var j: nat :| j < p.n && Enabled(p, s, j) && s' == Step(p, s, j);
        ZeroShareNeverEnds(p, ss, k - 1, j);
      }
    }
  }

  // ----- when the runner ends -----

  /** The loops can be left without waiting for reported completions: they are counted, or there is
      no count and the end is already decided. */
  predicate Settled(p: Params, s: State)
    requires p.n > 0
  {
    Quota(p) != 0 || (p.opCount == 0 && (p.opCountSet || s.finished))
  }

  /** Steps a thread can still take once its loop is settled. */
  function Rank(p: Params, t: Thread): nat
    requires p.n > 0
  {
    match t.pc
    case Fresh => 2 * Quota(p) + 9
    case InStart => 2 * Quota(p) + 8
    case Timing => 2 * Quota(p) + 7
    case BeforeRun => 2 * Quota(p) + 6
    case InRun => 2 * Quota(p) + 5
    case Looping => 2 * t.left + 4
    case Calling => if Quota(p) == 0 then 5 else 2 * t.left + 3
    case Reporting => 3
    case BeforeEnd => 2
    case InEnd => 1
    case Returned => 0
  }

  function RankOf(p: Params): Thread -> nat
    requires p.n > 0
  {
    t => Rank(p, t)
  }

  lemma RankFalls(p: Params, s: State, i: nat)
    requires Sized(p, s) && i < p.n && Enabled(p, s, i) && At(p, s, i) && Settled(p, s)
    requires Quota(p) == 0 ==> s.threads[i].left == 0
    ensures Sized(p, Step(p, s, i)) && Settled(p, Step(p, s, i))
    ensures Rank(p, Step(p, s, i).threads[i]) < Rank(p, s.threads[i])
  {
    hide StartCounts, RunCounts;
  }

  /** Every thread step from a settled state lowers the total rank. */
  lemma StepRanks(p: Params, s: State, i: nat)
    requires Inv(p, s) && NoLeft(p, s) && i < p.n && Enabled(p, s, i) && Settled(p, s)
    ensures var s' := Step(p, s, i);
            Inv(p, s') && NoLeft(p, s') && Settled(p, s') && Total(RankOf(p), s'.threads) < Total(RankOf(p), s.threads)
  {
    StepInv(p, s, i);
    assert At(p, s, i);
    RankFalls(p, s, i);
    TotalUpdate(RankOf(p), s.threads, i, Step(p, s, i).threads[i]);
    StepNoLeft(p, s, i);
    hide Rank, At, Settled;
  }

  /** With a zero quota the counted loop's variable stays 0. */
  ghost predicate NoLeft(p: Params, s: State) {
    p.n > 0 && (Quota(p) == 0 ==> forall t | t in s.threads :: t.left == 0)
  }

  lemma StepNoLeft(p: Params, s: State, i: nat)
    requires Sized(p, s) && i < p.n && Enabled(p, s, i) && NoLeft(p, s)
    ensures NoLeft(p, Step(p, s, i))
  {
    hide IsDone, Enabled;
    var s' := Step(p, s, i);
    assert s.threads[i] in s.threads;
    assert forall t | t in s'.threads :: t in s.threads || t == s'.threads[i];
  }

  ghost predicate AllReturned(p: Params, s: State) {
    Sized(p, s) && forall i: nat | i < p.n :: s.threads[i].pc == Returned
  }

  /** Nobody is ever blocked for good: as long as some thread has not returned, some thread can
      move. A blocked thread waits for one that is an earlier phase behind. */
  lemma SomeoneMoves(p: Params, s: State) returns (i: nat)
    requires Inv(p, s) && !AllReturned(p, s)
    ensures i < p.n && Enabled(p, s, i)
  {
    i :| i < p.n && s.threads[i].pc != Returned;
    if s.threads[i].pc == InEnd && !Enabled(p, s, i) { i := Behind(p, s, i); }
    if s.threads[i].pc == InRun && !Enabled(p, s, i) { i := Behind(p, s, i); }
    if s.threads[i].pc == InStart && !Enabled(p, s, i) { i := Behind(p, s, i); }
  }

  /** Whom a blocked thread waits for. */
  lemma Behind(p: Params, s: State, i: nat) returns (j: nat)
    requires Inv(p, s) && i < p.n && s.threads[i].pc in {InStart, InRun, InEnd} && !Enabled(p, s, i)
    ensures j < p.n
    ensures s.threads[i].pc == InEnd ==> s.threads[j].pc !in {InEnd, Returned}
    ensures s.threads[i].pc == InRun ==> s.threads[j].pc in {Fresh, InStart, Timing, BeforeRun}
    ensures s.threads[i].pc == InStart ==> s.threads[j].pc == Fresh
  {
    assert At(p, s, i);
    var cs := if s.threads[i].pc == InStart then s.start else s.run;
    j :| j < p.n && cs[j].entered < cs[i].entered;
    assert At(p, s, j);
  }

  /** From a settled state threads can move until all have returned, in at most as many steps as
      their ranks add up to. */
  lemma {:induction false} Completes(p: Params, s: State) returns (ss: seq<State>)
    requires Inv(p, s) && NoLeft(p, s) && Settled(p, s)
    ensures 0 < |ss| <= Total(RankOf(p), s.threads) + 1 && ss[0] == s && AllReturned(p, ss[|ss| - 1])
    ensures forall k: nat | k + 1 < |ss| :: Next(p, ss[k], ss[k + 1])
    decreases Total(RankOf(p), s.threads)
  {
    if AllReturned(p, s) {
      ss := [s];
    } else {
      var i := SomeoneMoves(p, s);
      StepRanks(p, s, i);
      var s' := Step(p, s, i);
      assert Next(p, s, s');
      hide *;
      var rest := Completes(p, s');
      ss := [s] + rest;
    }
  }

  ghost predicate CanEnd(p: Params) {
    exists ss :: IsRun(p, ss) && AllReturned(p, ss[|ss| - 1])
  }

  function FreshState(p: Params): State {
    State(seq(p.n, _ => Thread(Fresh, 0, 0, 0)), seq(p.n, _ => Counts(0, 0)), seq(p.n, _ => Counts(0, 0)),
          false, false, 0)
  }

  lemma FreshFacts(p: Params)
    requires p.n > 0
    ensures var s := FreshState(p);
            Init(p, s) && Inv(p, s) && NoLeft(p, s)
            && Inv(p, s.(finished := true)) && NoLeft(p, s.(finished := true))
  {
    var s := FreshState(p);
    assert IsRun(p, [s]);
    RunInv(p, [s], 0);
    assert Next(p, s, s.(finished := true));
    assert IsRun(p, [s, s.(finished := true)]);
    RunInv(p, [s, s.(finished := true)], 1);
  }

  /** When the per-thread share is nonzero, or no count was given and the alarm can go off, the
      runner can end. */
  lemma EndsWhen(p: Params)
    requires p.n > 0 && (p.opCount == 0 || Quota(p) != 0)
    ensures CanEnd(p)
  {
    FreshFacts(p);
    var s := FreshState(p);
    var on := s.(finished := true);
    var rest := Completes(p, on);
    var ss := [s] + rest;
    assert Next(p, s, on);
    forall k: nat | k + 1 < |ss| ensures Next(p, ss[k], ss[k + 1]) {
      if k > 0 { assert Next(p, rest[k - 1], rest[k - 1 + 1]); }
    }
    assert IsRun(p, ss) && ss[|ss| - 1] == rest[|rest| - 1];
  }

  /** The runner can end exactly when no operation count was given or the per-thread share, as the
      threads read it, is nonzero - operations not reporting completions themselves. */
  lemma EndsExactly(p: Params)
    requires p.n > 0
    ensures CanEnd(p) <==> p.opCount == 0 || Quota(p) != 0
  {
    if p.opCount == 0 || Quota(p) != 0 {
      EndsWhen(p);
    } else if CanEnd(p) {
      var ss :| IsRun(p, ss) && AllReturned(p, ss[|ss| - 1]);
      ZeroShareNeverEnds(p, ss, |ss| - 1, 0);
    }
  }

  /** One operation for two threads: the runner cannot end. */
  lemma OneForTwo()
    ensures !CanEnd(Params(2, 1, true))
  {
    EndsExactly(Params(2, 1, true));
  }

  /** Thread steps taken in the first `k` moves of a run; the alarm is none. */
  ghost function Steps(p: Params, ss: seq<State>, k: nat): nat
    requires k < |ss|
  {
    if k == 0 then 0
    else Steps(p, ss, k - 1) + if ss[k] == ss[k - 1].(finished := true) then 0 else 1
  }

  lemma RankAtMost(p: Params, t: Thread)
    requires p.n > 0 && ThreadInv(p, t) && (Quota(p) == 0 ==> t.left == 0)
    ensures Rank(p, t) <= 2 * Quota(p) + 9
  {
    hide Quota;
  }

  lemma RanksAtMost(p: Params, s: State)
    requires Inv(p, s) && NoLeft(p, s)
    ensures Total(RankOf(p), s.threads) <= p.n * (2 * Quota(p) + 9)
  {
    forall i: nat | i < p.n ensures RankOf(p)(s.threads[i]) <= 2 * Quota(p) + 9 {
      assert At(p, s, i) && s.threads[i] in s.threads;
      RankAtMost(p, s.threads[i]);
    }
    TotalAtMost(RankOf(p), s.threads, 2 * Quota(p) + 9);
  }

  lemma {:induction false} RunNoLeft(p: Params, ss: seq<State>, k: nat)
    requires IsRun(p, ss) && k < |ss|
    ensures NoLeft(p, ss[k])
  {
    if k > 0 {
      RunNoLeft(p, ss, k - 1);
      var s, s' := ss[k - 1], ss[k];
      assert Next(p, s, s');
      if s' != s.(finished := true) {
        var i: nat :| i < p.n && Enabled(p, s, i) && s' == Step(p, s, i);
        StepNoLeft(p, s, i);
      }
    }
  }

  lemma SettledStep(p: Params, s: State, s': State)
    requires Inv(p, s) && NoLeft(p, s) && Settled(p, s) && Next(p, s, s')
    ensures Settled(p, s')
    ensures Total(RankOf(p), s'.threads) + (if s' == s.(finished := true) then 0 else 1) <= Total(RankOf(p), s.threads)
  {
    assert Settled(p, s.(finished := true));
    if s' != s.(finished := true) {
      var i: nat :| i < p.n && Enabled(p, s, i) && s' == Step(p, s, i);
      hide Inv, Enabled, Step, Settled;
      StepRanks(p, s, i);
    }
  }

  lemma RunNext(p: Params, ss: seq<State>, k: nat)
    requires IsRun(p, ss) && k + 1 < |ss|
    ensures p.n > 0 && Next(p, ss[k], ss[k + 1])
  {
  }

  lemma StepsNext(p: Params, ss: seq<State>, k: nat)
    requires 0 < k < |ss|
    ensures Steps(p, ss, k) ==
            Steps(p, ss, k - 1) + if ss[k] == ss[k - 1].(finished := true) then 0 else 1
  {
  }

  /** From a settled state on, a run stays settled and its thread steps use up the ranks. */
  lemma {:induction false} SettledEnds(p: Params, ss: seq<State>, j: nat, k: nat)
    requires IsRun(p, ss) && j <= k < |ss| && Settled(p, ss[j])
    ensures Settled(p, ss[k])
    ensures Steps(p, ss, k) - Steps(p, ss, j) + Total(RankOf(p), ss[k].threads) <= Total(RankOf(p), ss[j].threads)
    decreases k - j
  {
    hide *;
    if j < k {
      RunNext(p, ss, k - 1);
      RunInv(p, ss, k - 1);
      StepsNext(p, ss, k);
      SettledEnds(p, ss, j, k - 1);
      RunNoLeft(p, ss, k - 1);
      SettledStep(p, ss[k - 1], ss[k]);
    }
  }

  /** Every run ends, whatever the schedule, with a nonzero share, with a count given as zero, and - with
      no count - once the alarm has gone off: from then on no run takes more than n * (2 * share + 9)
      thread steps, and until all threads have returned one of them can move. */
  lemma EveryRunEnds(p: Params, ss: seq<State>, j: nat, k: nat)
    requires IsRun(p, ss) && j <= k < |ss|
    requires Quota(p) != 0 || (p.opCount == 0 && (p.opCountSet || ss[j].finished))
    ensures Steps(p, ss, k) - Steps(p, ss, j) <= p.n * (2 * Quota(p) + 9)
    ensures AllReturned(p, ss[k]) || exists i: nat :: i < p.n && Enabled(p, ss[k], i)
  {
    assert Settled(p, ss[j]);
    hide Settled, Next, Quota;
    SettledEnds(p, ss, j, k);
    RunInv(p, ss, j);
    RunNoLeft(p, ss, j);
    RanksAtMost(p, ss[j]);
    RunInv(p, ss, k);
    hide Inv;
    if !AllReturned(p, ss[k]) {
      var i := SomeoneMoves(p, ss[k]);
    }
  }

  // ----- a total that wraps -----

  /** One thread in timed mode, at a place of the loop, after `calls` calls. */
  function Alone(pc: Pc, calls: nat, finished: bool): State {
    State([Thread(pc, calls % TWO_32, 0, calls)], [StartCounts(pc)], [RunCounts(pc)], pc !in {Fresh, InStart, Timing},
          finished, if Reported(pc) then calls % TWO_32 else 0)
  }

  /** Where it goes next; thread 0 is the one that times. */
  function Onward(pc: Pc, finished: bool): Pc {
    match pc
    case Fresh => InStart
    case InStart => Timing
    case Timing => BeforeRun
    case BeforeRun => InRun
    case InRun => Looping
    case Looping => if finished then Reporting else Calling
    case Calling => Looping
    case Reporting => BeforeEnd
    case BeforeEnd => InEnd
    case InEnd => Returned
    case Returned => Returned
  }

  const LONE: Params := Params(1, 0, false)

  lemma AloneMoves(pc: Pc, calls: nat, finished: bool)
    requires pc != Returned && (pc in {Fresh, InStart, Timing, BeforeRun, InRun} ==> calls == 0)
    ensures Next(LONE, Alone(pc, calls, finished),
                 Alone(Onward(pc, finished), if pc == Calling then calls + 1 else calls, finished))
  {
    var s := Alone(pc, calls, finished);
    assert Quota(LONE) == 0;
    assert Enabled(LONE, s, 0);
    var t, t' := s.threads[0], Step(LONE, s, 0).threads[0];
    Counted(t.ops, t.calls);
    assert Step(LONE, s, 0) == Alone(Onward(pc, finished), if pc == Calling then calls + 1 else calls, finished);
  }

  /** `ss` is a run that starts fresh and ends in `s`. */
  ghost predicate RunTo(p: Params, ss: seq<State>, s: State) {
    IsRun(p, ss) && ss[|ss| - 1] == s
  }

  lemma Extend(p: Params, ss: seq<State>, s: State, s': State) returns (ss': seq<State>)
    requires RunTo(p, ss, s) && Next(p, s, s')
    ensures RunTo(p, ss', s')
  {
    ss' := ss + [s'];
    forall k: nat | k + 1 < |ss'| ensures Next(p, ss'[k], ss'[k + 1]) {
      if k + 1 == |ss| { assert ss'[k] == s; }
    }
  }

  lemma AloneGoesOn(ss: seq<State>, pc: Pc, calls: nat, finished: bool) returns (ss': seq<State>)
    requires pc != Returned && (pc in {Fresh, InStart, Timing, BeforeRun, InRun} ==> calls == 0)
    requires RunTo(LONE, ss, Alone(pc, calls, finished))
    ensures RunTo(LONE, ss', Alone(Onward(pc, finished), if pc == Calling then calls + 1 else calls, finished))
  {
    AloneMoves(pc, calls, finished);
    ss' := Extend(LONE, ss, Alone(pc, calls, finished),
                  Alone(Onward(pc, finished), if pc == Calling then calls + 1 else calls, finished));
  }

  /** In timed mode the loop can be at any number of calls. */
  lemma {:induction false} AloneLoops(calls: nat) returns (ss: seq<State>)
    ensures RunTo(LONE, ss, Alone(Looping, calls, false))
  {
    hide Alone, RunTo;
    if calls == 0 {
      ss := AloneStarts();
      ss := AloneGoesOn(ss, Fresh, 0, false);
      ss := AloneGoesOn(ss, InStart, 0, false);
      ss := AloneGoesOn(ss, Timing, 0, false);
      ss := AloneGoesOn(ss, BeforeRun, 0, false);
      ss := AloneGoesOn(ss, InRun, 0, false);
    } else {
      ss := AloneLoops(calls - 1);
      ss := AloneGoesOn(ss, Looping, calls - 1, false);
      ss := AloneGoesOn(ss, Calling, calls - 1, false);
    }
  }

  lemma AloneStarts() returns (ss: seq<State>)
    ensures RunTo(LONE, ss, Alone(Fresh, 0, false))
  {
    ss := [Alone(Fresh, 0, false)];
  }

  /** In timed mode every number of calls can be reached before the alarm, and is reported modulo
      2^32. */
  lemma TimedRun(calls: nat) returns (ss: seq<State>)
    ensures IsRun(LONE, ss)
    ensures var s := ss[|ss| - 1];
            && AllReturned(LONE, s) && Total(Calls, s.threads) == calls && s.completed == calls % TWO_32
  {
    ss := AloneLoops(calls);
    assert Next(LONE, Alone(Looping, calls, false), Alone(Looping, calls, true));
    ss := Extend(LONE, ss, Alone(Looping, calls, false), Alone(Looping, calls, true));
    ss := AloneGoesOn(ss, Looping, calls, true);
    ss := AloneGoesOn(ss, Reporting, calls, true);
    ss := AloneGoesOn(ss, BeforeEnd, calls, true);
    ss := AloneGoesOn(ss, InEnd, calls, true);
    assert Total(Calls, Alone(Returned, calls, true).threads) == calls;
  }

  /** 2^32 calls are reported as none. */
  lemma WrappedTotal() returns (ss: seq<State>)
    ensures IsRun(LONE, ss)
    ensures var s := ss[|ss| - 1];
            && AllReturned(LONE, s) && Total(Calls, s.threads) == TWO_32 && s.completed == 0
  {
    ss := TimedRun(TWO_32);
  }
}
