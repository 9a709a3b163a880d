/** The doorbell protocol between main and its workers (pthread_test.c, lines 29-101 and 216-251;
    pthread_test_noposix.c, lines 41-128 and 262-297), for any number of workers, any start and end
    size, and one shared-memory access per step. */
module Doorbell {
  import opened Basics

  datatype Bell = Silent | Start | Finished

  /** A worker: not yet created, at the test of the outer loop, spinning on its doorbell, inside
      the transfer, about to signal, about to double its size, or gone. */
  datatype WorkerPc = Unborn | Test | Spin | Transfer | Signal | Double | Gone

  datatype Worker = Worker(pc: WorkerPc, size: nat, done: seq<nat>)

  /** Main: creating workers, at the test of its loop, filling buffer `i`, seeking file `i` to its
      start, ringing doorbell `i`, scanning doorbell `i`, about to double its size, joining, finished. */
  datatype MainPc = Create(i: nat) | Check | Fill(i: nat) | Seek(i: nat) | Ring(i: nat) | Scan(i: nat)
                  | Advance | Join(i: nat) | End

  /** `fills` tells whether main fills the buffers: it does in pthread_test.c, and not in
      pthread_test_noposix.c. */
  datatype Params = Params(n: nat, first: nat, last: nat, fills: bool)

  datatype State = State(main: MainPc, size: nat, bells: seq<Bell>, workers: seq<Worker>)

  ghost predicate Init(p: Params, s: State) {
    && s.main == Create(0) && s.size == p.first
    && |s.bells| == p.n && |s.workers| == p.n
    && (forall i: nat | i < p.n :: s.bells[i] == Silent && s.workers[i] == Worker(Unborn, p.first, []))
  }

  // ----- steps -----

  /** Main's step. A scan that meets an unfinished worker starts over. */
  function MainStep(p: Params, s: State): State
    requires |s.bells| == p.n && |s.workers| == p.n
  {
    match s.main
    case Create(i) =>
      if i < p.n then s.(main := Create(i + 1), workers := s.workers[i := s.workers[i].(pc := Test)])
      else s.(main := Check)
    case Check => if s.size <= p.last then s.(main := if p.fills then Fill(0) else Seek(0)) else s.(main := Join(0))
    case Fill(i) => if i < p.n then s.(main := Fill(i + 1)) else s.(main := Seek(0))
    case Seek(i) => if i < p.n then s.(main := Seek(i + 1)) else s.(main := Ring(0))
    case Ring(i) =>
      if i < p.n then s.(main := Ring(i + 1), bells := s.bells[i := Start]) else s.(main := Scan(0))
    case Scan(i) =>
      if i >= p.n then s.(main := Advance)
      else if s.bells[i] == Finished then s.(main := Scan(i + 1))
      else s.(main := Scan(0))
    case Advance => s.(main := Check, size := 2 * s.size)
    case Join(i) =>
      if i >= p.n then s.(main := End)
      else if s.workers[i].pc == Gone then s.(main := Join(i + 1))
      else s
    case End => s
  }

  function WorkerStep(p: Params, s: State, i: nat): State
    requires i < p.n && |s.bells| == p.n && |s.workers| == p.n
  {
    var w := s.workers[i];
    match w.pc
    case Unborn => s
    case Test => s.(workers := s.workers[i := w.(pc := if w.size <= p.last then Spin else Gone)])
    case Spin => if s.bells[i] == Start then s.(workers := s.workers[i := w.(pc := Transfer)]) else s
    case Transfer => s.(workers := s.workers[i := w.(pc := Signal, done := w.done + [w.size])])
    case Signal => s.(bells := s.bells[i := Finished], workers := s.workers[i := w.(pc := Double)])
    case Double => s.(workers := s.workers[i := w.(pc := Test, size := 2 * w.size)])
    case Gone => s
  }

  /** Who moves: main or worker `i`. */
  datatype Actor = Main | Thread(i: nat)

  ghost predicate Next(p: Params, s: State, a: Actor, s': State) {
    && |s.bells| == p.n && |s.workers| == p.n
    && match a
       case Main => s' == MainStep(p, s)
       case Thread(i) => i < p.n && s' == WorkerStep(p, s, i)
  }

  ghost predicate IsRun(p: Params, ss: seq<State>, who: seq<Actor>) {
    && |ss| == |who| + 1 && Init(p, ss[0])
    && forall k: nat | k < |who| :: Next(p, ss[k], who[k], ss[k + 1])
  }

  // ----- the invariant -----

  /** Main has not rung worker `i` in the round of size `s.size`. */
  predicate Before(s: State, i: nat) {
    match s.main
    case Create(_) => true
    case Check => true
    case Fill(_) => true
    case Seek(_) => true
    case Ring(j) => j <= i
    case Scan(_) => false
    case Advance => false
    case Join(_) => true
    case End => true
  }

  /** Main has already seen worker `i` finish the round. */
  predicate Seen(s: State, i: nat) {
    match s.main
    case Scan(j) => i < j
    case Advance => true
    case _ => false
  }

  /** The worker has nothing to do before main rings for a round of size `size`. */
  predicate Idle(w: Worker, size: nat) {
    || (w.pc in {Test, Spin, Gone} && w.size == size)
    || (w.pc == Double && 2 * w.size == size)
  }

  /** The worker is on its way into, inside or just out of the transfer of size `size`. */
  predicate Busy(w: Worker, size: nat) {
    || (w.pc in {Test, Spin, Transfer, Signal} && w.size == size)
    || (w.pc == Double && 2 * w.size == size)
  }

  /** Where worker `i` can be, given where main is. */
  predicate Phase(s: State, i: nat)
    requires i < |s.bells| == |s.workers|
  {
    var w, bell := s.workers[i], s.bells[i];
    if s.main.Create? && s.main.i <= i then w.pc == Unborn && w.size == s.size && bell != Start
    else if Before(s, i) then bell != Start && Idle(w, s.size)
    else
      || (bell == Start && !Seen(s, i) && Busy(w, s.size))
      || (bell == Finished && Idle(w, 2 * s.size))
  }

  function Doubled(first: nat, k: nat): nat {
    if k == 0 then first else 2 * Doubled(first, k - 1)
  }

  /** The sizes transferred so far are the doubling sequence up to the worker's current size. */
  predicate Logged(p: Params, w: Worker) {
    var k := |w.done|;
    && (forall j: nat | j < k :: w.done[j] == Doubled(p.first, j) && w.done[j] <= p.last)
    && (if w.pc in {Signal, Double} then k > 0 && w.size == Doubled(p.first, k - 1)
        else w.size == Doubled(p.first, k))
    && (w.pc in {Spin, Transfer} ==> w.size <= p.last)
    && (w.pc == Gone ==> w.size > p.last)
  }

  predicate MainInRange(p: Params, s: State) {
    match s.main
    case Create(i) => i <= p.n
    case Check => true
    case Fill(i) => i <= p.n && s.size <= p.last
    case Seek(i) => i <= p.n && s.size <= p.last
    case Ring(i) => i <= p.n && s.size <= p.last
    case Scan(i) => i <= p.n && s.size <= p.last
    case Advance => s.size <= p.last
    case Join(i) => i <= p.n && s.size > p.last
    case End => s.size > p.last
  }

  predicate Joined(s: State, i: nat) {
    match s.main
    case Join(j) => i < j
    case End => true
    case _ => false
  }

  predicate WorkerInv(p: Params, s: State, i: nat)
    requires i < |s.bells| == |s.workers|
  {
    Phase(s, i) && Logged(p, s.workers[i]) && (Joined(s, i) ==> s.workers[i].pc == Gone)
  }

  ghost predicate Inv(p: Params, s: State) {
    && |s.bells| == p.n && |s.workers| == p.n && p.first > 0
    && MainInRange(p, s) && s.size > 0
    && forall i: nat | i < p.n :: WorkerInv(p, s, i)
  }

  lemma InitInv(p: Params, s: State)
    requires Init(p, s) && p.first > 0
    ensures Inv(p, s)
  {
  }

  lemma MainKeepsWorker(p: Params, s: State, i: nat)
    requires |s.bells| == p.n && |s.workers| == p.n && MainInRange(p, s) && s.size > 0
    requires i < p.n && WorkerInv(p, s, i)
    ensures WorkerInv(p, MainStep(p, s), i)
  {
  }

  lemma WorkerKeeps(p: Params, s: State, i: nat)
    requires |s.bells| == p.n && |s.workers| == p.n && MainInRange(p, s) && s.size > 0
    requires i < p.n && WorkerInv(p, s, i)
    ensures WorkerInv(p, WorkerStep(p, s, i), i)
  {
    WorkerKeepsLog(p, s, i);
    hide Doubled;
  }

  lemma WorkerKeepsLog(p: Params, s: State, i: nat)
    requires |s.bells| == p.n && |s.workers| == p.n && i < p.n && Logged(p, s.workers[i])
    ensures Logged(p, WorkerStep(p, s, i).workers[i])
  {
  }

  lemma NextInv(p: Params, s: State, a: Actor, s': State)
    requires Inv(p, s) && Next(p, s, a, s')
    ensures Inv(p, s')
  {
    hide WorkerInv;
    match a {
      case Main =>
        forall i: nat | i < p.n ensures WorkerInv(p, s', i) { MainKeepsWorker(p, s, i); }
      case Thread(t) =>
        forall i: nat | i < p.n ensures WorkerInv(p, s', i) {
          if i == t { WorkerKeeps(p, s, i); } else { OtherKeeps(p, s, t, i); }
        }
    }
  }

  lemma OtherKeeps(p: Params, s: State, t: nat, i: nat)
    requires |s.bells| == p.n && |s.workers| == p.n
    requires i < p.n && t < p.n && i != t && WorkerInv(p, s, i)
    ensures WorkerInv(p, WorkerStep(p, s, t), i)
  {
  }

  lemma {:induction false} RunInv(p: Params, ss: seq<State>, who: seq<Actor>, k: nat)
    requires IsRun(p, ss, who) && p.first > 0 && k <= |who|
    ensures Inv(p, ss[k])
  {
    if k == 0 {
      InitInv(p, ss[0]);
    } else {
      RunInv(p, ss, who, k - 1);
      NextInv(p, ss[k - 1], who[k - 1], ss[k]);
    }
  }

  // ----- safety -----

  /** In every interleaving: while main prepares buffers and positions or changes its size, no
      worker is inside its transfer; and a worker inside its transfer works on main's size, after
      main has rung its doorbell and before main has seen it finish. */
  lemma TransfersExcludeMain(p: Params, ss: seq<State>, who: seq<Actor>, k: nat, i: nat)
    requires IsRun(p, ss, who) && p.first > 0 && k <= |who| && i < p.n
    ensures |ss[k].workers| == p.n
    ensures var s := ss[k];
            s.workers[i].pc == Transfer ==>
              && s.workers[i].size == s.size <= p.last
              && ((s.main.Ring? && i < s.main.i) || (s.main.Scan? && s.main.i <= i))
  {
    RunInv(p, ss, who, k);
    assert WorkerInv(p, ss[k], i);
  }

  /** When main has finished, every worker is gone and has made exactly one transfer for each size
      of the doubling sequence that does not exceed the last. */
  lemma EveryoneDidEverySize(p: Params, ss: seq<State>, who: seq<Actor>, k: nat, i: nat)
    requires IsRun(p, ss, who) && p.first > 0 && k <= |who| && i < p.n && ss[k].main == End
    ensures |ss[k].workers| == p.n && ss[k].workers[i].pc == Gone
    ensures var done := ss[k].workers[i].done;
            && (forall j: nat | j < |done| :: done[j] == Doubled(p.first, j))
            && (forall j: nat :: Doubled(p.first, j) <= p.last <==> j < |done|)
    ensures var done := ss[k].workers[i].done;
            && (forall j: nat | j < |done| :: done[j] <= p.last)
            && (forall j: nat | j + 1 < |done| :: done[j + 1] == 2 * done[j])
            && (if done == [] then p.first > p.last
                else done[0] == p.first && 2 * done[|done| - 1] > p.last)
  {
    RunInv(p, ss, who, k);
    assert WorkerInv(p, ss[k], i);
    var done := ss[k].workers[i].done;
    forall j: nat ensures Doubled(p.first, j) <= p.last <==> j < |done| {
      if j >= |done| { DoubledGrows(p.first, |done|, j); }
    }
    hide Inv, WorkerInv, Doubled;
    DoublingSizes(p, done);
  }

  lemma DoublingSizes(p: Params, done: seq<nat>)
    requires forall j: nat | j < |done| :: done[j] == Doubled(p.first, j)
    requires forall j: nat :: Doubled(p.first, j) <= p.last <==> j < |done|
    ensures forall j: nat | j < |done| :: done[j] <= p.last
    ensures forall j: nat | j + 1 < |done| :: done[j + 1] == 2 * done[j]
    ensures if done == [] then p.first > p.last else done[0] == p.first && 2 * done[|done| - 1] > p.last
  {
    assert Doubled(p.first, 0) == p.first;
    if done != [] { assert Doubled(p.first, |done|) == 2 * done[|done| - 1]; }
  }

  lemma DoubledGrows(first: nat, j: nat, k: nat)
    requires j <= k
    ensures Doubled(first, j) <= Doubled(first, k)
    decreases k - j
  {
    if j < k { DoubledGrows(first, j + 1, k); }
  }

  // ----- what main has done in a round -----

  /** Main has taken its step at `m` somewhere between `a` and `b`. */
  ghost predicate Did(ss: seq<State>, who: seq<Actor>, a: nat, b: nat, m: MainPc)
    requires |ss| == |who| + 1
  {
    exists f: nat :: a <= f < b <= |who| && who[f] == Main && ss[f].main == m
  }

  /** The round that state `k` is in began at `a`: main was at its test then and has not been since,
      and its size has not changed. */
  ghost predicate RoundSince(ss: seq<State>, a: nat, k: nat) {
    && a <= k < |ss| && ss[a].main == Check
    && forall m: nat | a <= m <= k :: ss[m].size == ss[k].size && (m > a ==> ss[m].main != Check)
  }

  predicate InRound(m: MainPc) {
    m.Fill? || m.Seek? || m.Ring? || m.Scan? || m.Advance?
  }

  /** What lies behind main in its round: the steps before the one it is at. */
  predicate Behind(p: Params, at: MainPc, m: MainPc) {
    match m
    case Fill(i) => p.fills && i < p.n && (at.Fill? ==> i < at.i)
    case Seek(i) => i < p.n && !at.Fill? && (at.Seek? ==> i < at.i)
    case Ring(i) => i < p.n && !at.Fill? && !at.Seek? && (at.Ring? ==> i < at.i)
    case _ => false
  }

  /** In every run: by the time main is anywhere in a round, it has taken in this round every step
      that lies before - for each worker. */
  lemma {:induction false} RoundSoFar(p: Params, ss: seq<State>, who: seq<Actor>, k: nat) returns (a: nat)
    requires IsRun(p, ss, who) && k <= |who| && InRound(ss[k].main)
    ensures RoundSince(ss, a, k)
    ensures forall m | Behind(p, ss[k].main, m) :: Did(ss, who, a, k, m)
  {
    assert Next(p, ss[k - 1], who[k - 1], ss[k]);
    var s, s' := ss[k - 1], ss[k];
    if s.main == Check {
      a := k - 1;
    } else {
      a := RoundSoFar(p, ss, who, k - 1);
      forall m | Behind(p, s'.main, m) ensures Did(ss, who, a, k, m) {
        if Behind(p, s.main, m) {
          var f: nat :| a <= f < k - 1 && who[f] == Main && ss[f].main == m;
        } else {
          assert who[k - 1] == Main && s.main == m;
        }
      }
    }
  }

  /** Whenever main rings a doorbell, it has in this round - with this size - filled the buffer of
      every worker, if it fills them at all, and after that sought every file to its start. */
  lemma PreparedBeforeRing(p: Params, ss: seq<State>, who: seq<Actor>, k: nat, i: nat, j: nat)
    requires IsRun(p, ss, who) && k < |who| && ss[k].main == Ring(i) && i < p.n && j < p.n
    ensures exists a: nat, g: nat ::
              && RoundSince(ss, a, k) && a <= g < k && who[g] == Main && ss[g].main == Seek(j)
              && (p.fills ==> forall u: nat | u < p.n :: Did(ss, who, a, g, Fill(u)))
  {
    var a := RoundSoFar(p, ss, who, k);
    assert Behind(p, ss[k].main, Seek(j));
    var g: nat :| a <= g < k && who[g] == Main && ss[g].main == Seek(j);
    var b := RoundSoFar(p, ss, who, g);
    assert a == b;
  }

  /** Main leaves its scan only after one pass in which it found every worker finished, with no other
      look in between. */
  lemma {:induction false} OnePass(p: Params, ss: seq<State>, who: seq<Actor>, k: nat) returns (a: nat)
    requires IsRun(p, ss, who) && k <= |who| && ss[k].main.Scan?
    ensures a <= k && ss[a].main == Scan(0)
    ensures forall m: nat | a <= m < k ::
              && |ss[m].bells| == p.n
              && (who[m] == Main ==>
                    ss[m].main.Scan? && ss[m].main.i < p.n && ss[m].bells[ss[m].main.i] == Finished)
    ensures forall i: nat | i < ss[k].main.i :: Did(ss, who, a, k, Scan(i))
  {
    if ss[k].main == Scan(0) {
      a := k;
    } else {
      var s, s' := ss[k - 1], ss[k];
      assert Next(p, s, who[k - 1], s');
      a := OnePass(p, ss, who, k - 1);
      forall i: nat | i < s'.main.i ensures Did(ss, who, a, k, Scan(i)) {
        if i < s.main.i {
          var f: nat :| a <= f < k - 1 && who[f] == Main && ss[f].main == Scan(i);
        } else {
          assert who[k - 1] == Main && s.main == Scan(i);
        }
      }
    }
  }

  // ----- progress -----

  /** Sizes still to come, from `size` on. */
  function Rounds(p: Params, size: nat): nat
    decreases if size > p.last then 0 else p.last - size + 1
  {
    if size == 0 || size > p.last then 0 else 1 + Rounds(p, 2 * size)
  }

  function WorkerRank(p: Params, w: Worker): nat {
    6 * Rounds(p, w.size) +
    match w.pc
    case Unborn => 5
    case Test => 4
    case Spin => 3
    case Transfer => 2
    case Signal => 1
    case Double => 0
    case Gone => 0
  }

  function RankOf(p: Params): Worker -> nat {
    w => WorkerRank(p, w)
  }

  function Times(k: nat, n: nat): nat {
    if k == 0 then 0 else n + Times(k - 1, n)
  }

  function MainRank(p: Params, s: State): nat
    requires MainInRange(p, s)
  {
    Times(Rounds(p, s.size), 3 * p.n + 6) +
    match s.main
    case Create(i) => 3 * p.n + 6 + (p.n - i)
    case Check => 3 * p.n + 5
    case Fill(i) => 4 + 2 * p.n + (p.n - i)
    case Seek(i) => 3 + p.n + (p.n - i)
    case Ring(i) => 2 + (p.n - i)
    case Scan(_) => 1
    case Advance => 0
    case Join(i) => p.n - i + 1
    case End => 0
  }

  ghost predicate Ranked(p: Params, s: State) {
    && s.size > 0 && MainInRange(p, s) && |s.bells| == p.n && |s.workers| == p.n
    && forall w | w in s.workers :: w.size > 0
  }

  /** Work left. Spinning and scanning do not count. */
  ghost function Work(p: Params, s: State): nat
    requires Ranked(p, s)
  {
    MainRank(p, s) + Total(RankOf(p), s.workers)
  }

  function ScanLeft(p: Params, s: State): int {
    if s.main.Scan? then p.n - s.main.i else 0
  }

  lemma InvRanked(p: Params, s: State)
    requires Inv(p, s)
    ensures Ranked(p, s)
  {
    forall w | w in s.workers ensures w.size > 0 {
      var i: nat :| i < p.n && s.workers[i] == w;
      assert WorkerInv(p, s, i);
    }
  }

  lemma RankDrops(p: Params, s: State, i: nat)
    requires |s.bells| == p.n && |s.workers| == p.n && i < p.n
    requires Logged(p, s.workers[i]) && s.workers[i].size > 0
    ensures var s' := WorkerStep(p, s, i);
            && s'.workers[i].size > 0
            && (s' == s || WorkerRank(p, s'.workers[i]) < WorkerRank(p, s.workers[i]))
  {
  }

  /** A worker's step lowers the work unless it spins or is not running. */
  lemma WorkerWorks(p: Params, s: State, i: nat)
    requires Ranked(p, s) && i < p.n && WorkerInv(p, s, i)
    ensures var s' := WorkerStep(p, s, i);
            && Ranked(p, s')
            && (s' == s || Work(p, s') < Work(p, s))
            && ScanLeft(p, s') == ScanLeft(p, s)
  {
    var s' := WorkerStep(p, s, i);
    RankDrops(p, s, i);
    hide WorkerRank, Logged, Phase, Total;
    TotalUpdate(RankOf(p), s.workers, i, s'.workers[i]);
  }

  /** Main's step lowers the work, or moves the scan, or waits in the join. */
  lemma MainWorks(p: Params, s: State)
    requires Inv(p, s) && Ranked(p, s)
    ensures var s' := MainStep(p, s);
            && Ranked(p, s')
            && Work(p, s') <= Work(p, s)
            && (Work(p, s') == Work(p, s) ==> s' == s || (s.main.Scan? && s'.main.Scan?))
  {
    var s' := MainStep(p, s);
    InvMain(p, s);
    InvRanked(p, s');
    if s.main.Create? && s.main.i < p.n {
      assert WorkerInv(p, s, s.main.i);
      TotalUpdate(RankOf(p), s.workers, s.main.i, s'.workers[s.main.i]);
    }
  }

  lemma InvMain(p: Params, s: State)
    requires Inv(p, s)
    ensures Inv(p, MainStep(p, s))
  {
    NextInv(p, s, Main, MainStep(p, s));
  }

  /** No step of any run adds work, so at most Work(initial state) steps of a run are other than
      spinning and scanning. */
  lemma NextWorks(p: Params, s: State, a: Actor, s': State)
    requires Inv(p, s) && Next(p, s, a, s')
    ensures Ranked(p, s) && Ranked(p, s') && Work(p, s') <= Work(p, s)
    ensures Work(p, s') == Work(p, s) ==> s' == s || (s.main.Scan? && s'.main.Scan? && a == Main)
  {
    InvRanked(p, s);
    match a {
      case Main => MainWorks(p, s);
      case Thread(i) => WorkerWorks(p, s, i);
    }
  }

  ghost function Productive(p: Params, ss: seq<State>, k: nat): nat
    requires k < |ss|
  {
    if k == 0 then 0
    else Productive(p, ss, k - 1) +
         if ss[k] == ss[k - 1] || (ss[k - 1].main.Scan? && ss[k].main.Scan? && ss[k].workers == ss[k - 1].workers)
         then 0 else 1
  }

  lemma {:induction false} WorkBounds(p: Params, ss: seq<State>, who: seq<Actor>, k: nat)
    requires IsRun(p, ss, who) && p.first > 0 && k <= |who|
    ensures Ranked(p, ss[0]) && Ranked(p, ss[k])
    ensures Productive(p, ss, k) + Work(p, ss[k]) <= Work(p, ss[0])
  {
    RunInv(p, ss, who, k);
    InvRanked(p, ss[k]);
    if k > 0 {
      RunInv(p, ss, who, k - 1);
      WorkBounds(p, ss, who, k - 1);
      NextWorks(p, ss[k - 1], who[k - 1], ss[k]);
    }
  }

  /** Until main has ended, somebody can take a step that lowers the work, or moves the scan
      forward without adding any: the protocol cannot deadlock, and its spinning is never all that
      is left to do. */
  lemma AlwaysProgress(p: Params, s: State) returns (a: Actor, s': State)
    requires Inv(p, s) && s.main != End
    ensures Next(p, s, a, s') && Ranked(p, s) && Ranked(p, s')
    ensures Work(p, s') < Work(p, s)
            || (Work(p, s') == Work(p, s) && 0 <= ScanLeft(p, s') < ScanLeft(p, s))
  {
    InvRanked(p, s);
    a := Main;
    if s.main.Scan? && s.main.i < p.n && s.bells[s.main.i] != Finished {
      assert WorkerInv(p, s, s.main.i);
      a := Thread(s.main.i);
    } else if s.main.Join? && s.main.i < p.n && s.workers[s.main.i].pc != Gone {
      assert WorkerInv(p, s, s.main.i);
      a := Thread(s.main.i);
    }
    match a {
      case Main =>
        s' := MainStep(p, s);
        MainWorks(p, s);
      case Thread(i) =>
        s' := WorkerStep(p, s, i);
        WorkerWorks(p, s, i);
    }
  }

  // ----- every fair run ends -----

  ghost predicate AllFinished(p: Params, s: State)
    requires |s.bells| == p.n
  {
    forall i: nat | i < p.n :: s.bells[i] == Finished
  }

  /** How far the scan is from getting through; it cannot while a worker is unfinished. */
  ghost function ScanRank(p: Params, s: State): nat
    requires Ranked(p, s)
  {
    if !s.main.Scan? then 0 else if AllFinished(p, s) then p.n - s.main.i else p.n + 1
  }

  ghost function Left(p: Params, s: State): nat
    requires Ranked(p, s)
  {
    Work(p, s) * (p.n + 2) + ScanRank(p, s)
  }

  /** Only waiting has been done between `s` and `s'`. */
  ghost predicate Waited(p: Params, s: State, s': State)
    requires |s.bells| == p.n
  {
    || s' == s
    || (s.main.Scan? && s'.main.Scan? && s' == s.(main := s'.main) && !AllFinished(p, s))
  }

  lemma MoreWork(n: nat, less: nat, more: nat)
    requires less < more
    ensures less * (n + 2) + n + 2 <= more * (n + 2)
  {
    Apart(n + 2, less, more);
  }

  /** What is left never grows, and stays the same only when a step waits. */
  lemma NextLeft(p: Params, s: State, a: Actor, s': State)
    requires Inv(p, s) && Next(p, s, a, s')
    ensures Inv(p, s') && Ranked(p, s) && Ranked(p, s') && Left(p, s') <= Left(p, s)
    ensures Left(p, s') == Left(p, s) ==> Waited(p, s, s')
  {
    NextInv(p, s, a, s');
    NextWorks(p, s, a, s');
    hide Inv, Work;
    if Work(p, s') < Work(p, s) { MoreWork(p.n, Work(p, s'), Work(p, s)); }
  }

  lemma {:induction false} LeftFalls(p: Params, ss: seq<State>, who: seq<Actor>, a: nat, b: nat)
    requires IsRun(p, ss, who) && p.first > 0 && a <= b <= |who|
    ensures Inv(p, ss[a]) && Inv(p, ss[b]) && Ranked(p, ss[a]) && Ranked(p, ss[b])
    ensures Left(p, ss[b]) <= Left(p, ss[a])
    ensures Left(p, ss[b]) == Left(p, ss[a]) ==> Waited(p, ss[a], ss[b])
    decreases b - a
  {
    RunInv(p, ss, who, a);
    InvRanked(p, ss[a]);
    if a < b {
      LeftFalls(p, ss, who, a, b - 1);
      assert Next(p, ss[b - 1], who[b - 1], ss[b]);
      NextLeft(p, ss[b - 1], who[b - 1], ss[b]);
      hide Inv, Next, Left;
    }
  }

  /** Whom everybody waits for: however long the others wait, this one's step is progress. */
  lemma Awaited(p: Params, s: State) returns (x: Actor)
    requires Inv(p, s) && s.main != End
    ensures x.Thread? ==> x.i < p.n
    ensures forall s1, s2 | Inv(p, s1) && Ranked(p, s1) && Ranked(p, s2) && Waited(p, s, s1) && Next(p, s1, x, s2) ::
              Left(p, s2) < Left(p, s1)
  {
    x := Main;
    if s.main.Scan? && !AllFinished(p, s) {
      var i: nat :| i < p.n && s.bells[i] != Finished;
      x := Thread(i);
    } else if s.main.Join? && s.main.i < p.n && s.workers[s.main.i].pc != Gone {
      x := Thread(s.main.i);
    }
    forall s1, s2 | Inv(p, s1) && Ranked(p, s1) && Ranked(p, s2) && Waited(p, s, s1) && Next(p, s1, x, s2)
      ensures Left(p, s2) < Left(p, s1)
    {
      NextLeft(p, s1, x, s2);
      if x.Thread? {
        assert WorkerInv(p, s1, x.i);
        assert !Waited(p, s1, s2);
      }
    }
  }

  /** Everybody moves at least once between `a` and `b`. */
  ghost predicate Everyone(p: Params, who: seq<Actor>, a: nat, b: nat) {
    && a <= b <= |who|
    && Main in who[a..b]
    && forall i: nat | i < p.n :: Thread(i) in who[a..b]
  }

  lemma RoundLowers(p: Params, ss: seq<State>, who: seq<Actor>, a: nat, b: nat)
    requires IsRun(p, ss, who) && p.first > 0 && Everyone(p, who, a, b) && ss[a].main != End
    ensures Ranked(p, ss[a]) && Ranked(p, ss[b]) && Left(p, ss[b]) < Left(p, ss[a])
  {
    hide Inv, Left, Waited, Ranked;
    LeftFalls(p, ss, who, a, b);
    var x := Awaited(p, ss[a]);
    assert x == Main || x == Thread(x.i);
    var k: nat :| a <= k < b && who[k] == x;
    LeftFalls(p, ss, who, a, k);
    LeftFalls(p, ss, who, k, k + 1);
    LeftFalls(p, ss, who, k + 1, b);
    assert Next(p, ss[k], x, ss[k + 1]);
  }

  lemma {:induction false} EndStays(p: Params, ss: seq<State>, who: seq<Actor>, a: nat, b: nat)
    requires IsRun(p, ss, who) && a <= b <= |who| && ss[a].main == End
    ensures ss[b].main == End
    decreases b - a
  {
    if a < b {
      EndStays(p, ss, who, a, b - 1);
      assert Next(p, ss[b - 1], who[b - 1], ss[b]);
    }
  }

  /** The run is cut into rounds in each of which everybody moves. */
  ghost predicate Fair(p: Params, who: seq<Actor>, cuts: seq<nat>) {
    && (forall t: nat | t < |cuts| :: cuts[t] <= |who|)
    && forall t: nat | t + 1 < |cuts| :: Everyone(p, who, cuts[t], cuts[t + 1])
  }

  lemma {:induction false} RoundsLower(p: Params, ss: seq<State>, who: seq<Actor>, cuts: seq<nat>, t: nat)
    requires IsRun(p, ss, who) && p.first > 0 && Fair(p, who, cuts) && t < |cuts|
    ensures Ranked(p, ss[0]) && Ranked(p, ss[cuts[t]])
    ensures ss[cuts[t]].main == End || Left(p, ss[cuts[t]]) + t <= Left(p, ss[0])
  {
    hide Left, Inv, Ranked;
    LeftFalls(p, ss, who, 0, cuts[t]);
    if t > 0 {
      RoundsLower(p, ss, who, cuts, t - 1);
      assert Everyone(p, who, cuts[t - 1], cuts[t]);
      if ss[cuts[t - 1]].main == End {
        EndStays(p, ss, who, cuts[t - 1], cuts[t]);
      } else {
        RoundLowers(p, ss, who, cuts[t - 1], cuts[t]);
      }
    }
  }

  /** A number of rounds that is always enough. */
  function EnoughRounds(p: Params): nat {
    (Rounds(p, p.first) * (9 * p.n + 6) + 9 * p.n + 6) * (p.n + 2) + 1
  }

  lemma TimesIs(k: nat, n: nat)
    ensures Times(k, n) == k * n
  {
    if k > 0 { TimesIs(k - 1, n); }
  }

  lemma InitialWork(p: Params, s: State)
    requires Init(p, s) && p.first > 0
    ensures Ranked(p, s)
    ensures var n, r := p.n, Rounds(p, p.first);
            Work(p, s) <= r * (3 * n + 6) + 4 * n + 6 + n * (6 * r + 5)
  {
    InitInv(p, s);
    InvRanked(p, s);
    hide Inv, Ranked, Rounds;
    var n, r := p.n, Rounds(p, p.first);
    forall i: nat | i < n ensures RankOf(p)(s.workers[i]) <= 6 * r + 5 {
    }
    TotalAtMost(RankOf(p), s.workers, 6 * r + 5);
    TimesIs(r, 3 * n + 6);
    hide RankOf, Total;
  }

  lemma InitialLeft(p: Params, s: State)
    requires Init(p, s) && p.first > 0
    ensures Ranked(p, s) && Left(p, s) < EnoughRounds(p)
  {
    hide *;
    var n, r := p.n, Rounds(p, p.first);
    InitialWork(p, s);
    Together(r, n);
    Scale(Work(p, s), r * (9 * n + 6) + 9 * n + 6, n + 2);
    NotScanning(p, s);
  }

  lemma Together(r: nat, n: nat)
    ensures r * (3 * n + 6) + 4 * n + 6 + n * (6 * r + 5) == r * (9 * n + 6) + 9 * n + 6
  {
    assert r * (3 * n + 6) == 3 * (r * n) + 6 * r;
    assert n * (6 * r + 5) == 6 * (r * n) + 5 * n;
    assert r * (9 * n + 6) == 9 * (r * n) + 6 * r;
  }

  lemma NotScanning(p: Params, s: State)
    requires Init(p, s) && Ranked(p, s)
    ensures Left(p, s) == Work(p, s) * (p.n + 2)
    ensures EnoughRounds(p) == (Rounds(p, p.first) * (9 * p.n + 6) + 9 * p.n + 6) * (p.n + 2) + 1
  {
  }

  lemma Scale(a: nat, b: nat, c: nat)
    requires a <= b
    ensures a * c <= b * c
  {
  }

  /** Every fair run ends: once there have been enough rounds in which everybody moves, main has
      joined all workers - whatever the order within the rounds. */
  lemma FairRunEnds(p: Params, ss: seq<State>, who: seq<Actor>, cuts: seq<nat>)
    requires IsRun(p, ss, who) && p.first > 0 && Fair(p, who, cuts) && |cuts| > EnoughRounds(p)
    ensures ss[|who|].main == End
  {
    var t := EnoughRounds(p);
    InitialLeft(p, ss[0]);
    RoundsLower(p, ss, who, cuts, t);
    EndStays(p, ss, who, cuts[t], |who|);
  }

  /** From every state of the protocol it can be brought to its end... */
  lemma {:induction false} CanFinish(p: Params, s: State) returns (ss: seq<State>, who: seq<Actor>)
    requires Inv(p, s) && Ranked(p, s)
    ensures |ss| == |who| + 1 && ss[0] == s && ss[|who|].main == End
    ensures forall k: nat | k < |who| :: Next(p, ss[k], who[k], ss[k + 1])
    decreases Work(p, s), ScanLeft(p, s)
  {
    if s.main == End {
      ss, who := [s], [];
    } else {
      var a, s' := AlwaysProgress(p, s);
      NextInv(p, s, a, s');
      hide *;
      var rest, others := CanFinish(p, s');
      ss, who := [s] + rest, [a] + others;
    }
  }

  function Initial(p: Params): State {
    State(Create(0), p.first, seq(p.n, _ => Silent), seq(p.n, _ => Worker(Unborn, p.first, [])))
  }

  /** ... so for any number of workers and any sizes there is a run that ends. */
  lemma SomeRunEnds(p: Params) returns (ss: seq<State>, who: seq<Actor>)
    requires p.first > 0
    ensures IsRun(p, ss, who) && ss[|who|].main == End
  {
    assert Init(p, Initial(p));
    InitInv(p, Initial(p));
    InvRanked(p, Initial(p));
    ss, who := CanFinish(p, Initial(p));
  }
}
