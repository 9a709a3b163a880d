/** The hand-written cyclic barrier (Util/HarnessBarrier.hpp, lines 7-32): a mutex, a condition
    variable and a counter without generation, for any number of participants and unboundedly many
    reuses. POSIX allows pthread_cond_wait to return spuriously (POSIX.1-2017, System Interfaces,
    pthread_cond_wait), and line 28 waits without a loop; whether such returns happen is a
    parameter here. */
module Barrier {
  import opened Basics
  import opened CyclicSpec

  /** Where a participant is in Join: outside, wanting the mutex, holding it, blocked in
      pthread_cond_wait, woken and wanting the mutex again, holding it on the way out. */
  datatype Pc = Outside | Locking | Inside | Waiting | Woken | Leaving

  /** `entered` counts the joins a participant has counted itself into, `completed` those it has
      returned from. */
  datatype Party = Party(pc: Pc, entered: nat, completed: nat)

  /** The mutex. */
  datatype Mutex = Free | HeldBy(who: nat)

  datatype State = State(joined: nat, lock: Mutex, parties: seq<Party>)

  datatype Action = Call | Acquire | CountIn | Reacquire | Return | Spurious

  ghost predicate Init(n: nat, s: State) {
    && n > 0 && s.joined == 0 && s.lock == Free && |s.parties| == n
    && forall i: nat | i < n :: s.parties[i] == Party(Outside, 0, 0)
  }

  function WakeAll(ps: seq<Party>): (r: seq<Party>)
    ensures |r| == |ps|
    ensures forall i: nat | i < |ps| ::
              r[i] == if ps[i].pc == Waiting then ps[i].(pc := Woken) else ps[i]
  {
    seq(|ps|, i requires 0 <= i < |ps| => if ps[i].pc == Waiting then ps[i].(pc := Woken) else ps[i])
  }

  predicate Enabled(s: State, i: nat, a: Action)
    requires i < |s.parties|
  {
    match a
    case Call => s.parties[i].pc == Outside
    case Acquire => s.parties[i].pc == Locking && s.lock == Free
    case CountIn => s.parties[i].pc == Inside
    case Reacquire => s.parties[i].pc == Woken && s.lock == Free
    case Return => s.parties[i].pc == Leaving
    case Spurious => s.parties[i].pc == Waiting
  }

  /** One step of participant `i` of `n`. Counting in either wakes everybody and resets the counter,
      or blocks and gives the mutex back, in one atomic action. */
  function Step(n: nat, s: State, i: nat, a: Action): State
    requires i < |s.parties|
  {
    var p := s.parties[i];
    match a
    case Call => s.(parties := s.parties[i := p.(pc := Locking)])
    case Acquire => s.(lock := HeldBy(i), parties := s.parties[i := p.(pc := Inside)])
    case CountIn =>
      var q := p.(entered := p.entered + 1);
      if s.joined + 1 == n then
        State(0, HeldBy(i), WakeAll(s.parties)[i := q.(pc := Leaving)])
      else
        State(s.joined + 1, Free, s.parties[i := q.(pc := Waiting)])
    case Reacquire => s.(lock := HeldBy(i), parties := s.parties[i := p.(pc := Leaving)])
    case Return =>
      s.(lock := Free, parties := s.parties[i := p.(pc := Outside, completed := p.completed + 1)])
    case Spurious => s.(parties := s.parties[i := p.(pc := Woken)])
  }

  datatype Move = Move(who: nat, act: Action)

  ghost predicate Next(n: nat, spurious: bool, s: State, m: Move, s': State) {
    && m.who < |s.parties| && Enabled(s, m.who, m.act)
    && (m.act == Spurious ==> spurious)
    && s' == Step(n, s, m.who, m.act)
  }

  ghost predicate IsRun(n: nat, spurious: bool, ss: seq<State>, ms: seq<Move>) {
    && |ss| == |ms| + 1 && Init(n, ss[0])
    && forall k: nat | k < |ms| :: Next(n, spurious, ss[k], ms[k], ss[k + 1])
  }

  /** Nobody has completed more joins than somebody else has entered. */
  ghost predicate Safe(s: State) {
    forall i: nat, j: nat | i < |s.parties| && j < |s.parties| ::
      s.parties[i].completed <= s.parties[j].entered
  }

  // ----- the invariant without spurious wakeups -----

  function Blocked(ps: seq<Party>): set<nat> {
    set i: nat | i < |ps| && ps[i].pc == Waiting
  }

  /** After `g` broadcasts: the blocked participants, and only they, are one join ahead. */
  predicate PartyInv(p: Party, g: nat) {
    match p.pc
    case Outside => p.entered == g && p.completed == g
    case Locking => p.entered == g && p.completed == g
    case Inside => p.entered == g && p.completed == g
    case Waiting => p.entered == g + 1 && p.completed == g
    case Woken => p.entered == g && p.completed + 1 == g
    case Leaving => p.entered == g && p.completed + 1 == g
  }

  ghost predicate Inv(n: nat, s: State, g: nat) {
    && |s.parties| == n && s.joined < n
    && (forall i: nat | i < n :: PartyInv(s.parties[i], g))
    && |Blocked(s.parties)| == s.joined
    && (forall i: nat | i < n :: s.parties[i].pc in {Inside, Leaving} <==> s.lock == HeldBy(i))
    && (s.lock.HeldBy? ==> s.lock.who < n)
  }

  /** When one participant is not blocked and n - 1 are, those are all the others. */
  lemma AllOthersBlocked(ps: seq<Party>, i: nat)
    requires i < |ps| && ps[i].pc != Waiting && |Blocked(ps)| + 1 == |ps|
    ensures forall j: nat | j < |ps| && j != i :: ps[j].pc == Waiting
  {
    var all := Blocked(ps) + {i};
    assert all <= Indices(|ps|);
    SubsetSize(all, Indices(|ps|));
    forall j: nat | j < |ps| && j != i ensures ps[j].pc == Waiting {
      assert j in Indices(|ps|) && j in all;
    }
  }

  lemma InitInv(n: nat, s: State)
    requires Init(n, s)
    ensures Inv(n, s, 0)
  {
    assert Blocked(s.parties) == {};
  }

  lemma BlockedUpdate(ps: seq<Party>, i: nat, q: Party)
    requires i < |ps| && ps[i].pc != Waiting
    ensures |Blocked(ps[i := q])| == |Blocked(ps)| + if q.pc == Waiting then 1 else 0
  {
    assert Blocked(ps[i := q]) == Blocked(ps) + if q.pc == Waiting then {i} else {};
  }

  /** Counting in last: everybody else is blocked, and the broadcast starts the next round. */
  lemma LastIn(n: nat, s: State, i: nat, g: nat)
    requires Inv(n, s, g) && i < n && Enabled(s, i, CountIn) && s.joined + 1 == n
    ensures Inv(n, Step(n, s, i, CountIn), g + 1)
  {
    AllOthersBlocked(s.parties, i);
    var s' := Step(n, s, i, CountIn);
    assert PartyInv(s.parties[i], g);
    forall j: nat | j < n ensures PartyInv(s'.parties[j], g + 1) && s'.parties[j].pc != Waiting {
      assert PartyInv(s.parties[j], g);
    }
    assert Blocked(s'.parties) == {};
  }

  /** Every other step changes one participant and stays in the round. */
  lemma StepInv(n: nat, s: State, m: Move, s': State, g: nat) returns (g': nat)
    requires Inv(n, s, g) && Next(n, false, s, m, s')
    ensures Inv(n, s', g')
    ensures g' == if m.act == CountIn && s.joined + 1 == n then g + 1 else g
  {
    var i := m.who;
    assert PartyInv(s.parties[i], g);
    if m.act == CountIn && s.joined + 1 == n {
      LastIn(n, s, i, g);
      return g + 1;
    }
    g' := g;
    BlockedUpdate(s.parties, i, s'.parties[i]);
    hide Blocked;
  }

  lemma {:induction false} RunInv(n: nat, ss: seq<State>, ms: seq<Move>, k: nat) returns (g: nat)
    requires IsRun(n, false, ss, ms) && k <= |ms|
    ensures Inv(n, ss[k], g)
  {
    if k == 0 {
      InitInv(n, ss[0]);
      g := 0;
    } else {
      var h := RunInv(n, ss, ms, k - 1);
      g := StepInv(n, ss[k - 1], ms[k - 1], ss[k], h);
    }
  }

  lemma InvSafe(n: nat, s: State, g: nat)
    requires Inv(n, s, g)
    ensures Safe(s)
    ensures forall i: nat, j: nat | i < n && j < n :: s.parties[i].completed <= s.parties[j].completed + 1
  {
    forall i: nat | i < n
      ensures g <= s.parties[i].entered && s.parties[i].completed <= g <= s.parties[i].completed + 1
    {
      assert PartyInv(s.parties[i], g);
    }
  }

  /** Without spurious wakeups: in every run, however often the barrier is reused, nobody completes
      a k-th join before all have entered theirs, and completed joins differ by at most one. */
  lemma CyclicBarrierSafe(n: nat, ss: seq<State>, ms: seq<Move>, k: nat)
    requires IsRun(n, false, ss, ms) && k <= |ms|
    ensures |ss[k].parties| == n && Safe(ss[k])
    ensures forall i: nat, j: nat | i < n && j < n ::
              ss[k].parties[i].completed <= ss[k].parties[j].completed + 1
  {
    var g := RunInv(n, ss, ms, k);
    InvSafe(n, ss[k], g);
  }

  // ----- progress -----

  /** Joins a participant has called. */
  function Called(p: Party): nat {
    p.completed + if p.pc == Outside then 0 else 1
  }

  ghost predicate AllCalled(s: State, k: nat) {
    forall i: nat | i < |s.parties| :: Called(s.parties[i]) >= k
  }

  ghost predicate AllBack(s: State, k: nat) {
    forall i: nat | i < |s.parties| :: s.parties[i].completed >= k
  }

  predicate Inward(a: Action) {
    a != Call && a != Spurious
  }

  /** Once all have called a k-th join, and until all have completed theirs, somebody already inside
      can move: nobody waits for a further call. */
  lemma NoDeadlock(n: nat, s: State, g: nat, k: nat) returns (m: Move)
    requires Inv(n, s, g) && AllCalled(s, k) && !AllBack(s, k)
    ensures m.who < n && Inward(m.act) && Enabled(s, m.who, m.act)
  {
    if s.lock.HeldBy? {
      var h := s.lock.who;
      assert s.parties[h].pc in {Inside, Leaving};
      return Move(h, if s.parties[h].pc == Inside then CountIn else Return);
    }
    var i: nat :| i < n && s.parties[i].completed < k;
    assert PartyInv(s.parties[i], g) && Called(s.parties[i]) >= k;
    assert !(s.parties[i].pc in {Inside, Leaving});
    if s.parties[i].pc == Waiting {
      i := SomeoneAwake(s.parties);
      assert PartyInv(s.parties[i], g) && Called(s.parties[i]) >= k;
      assert !(s.parties[i].pc in {Inside, Leaving});
    }
    m := Move(i, if s.parties[i].pc == Locking then Acquire else Reacquire);
  }

  /** Steps a participant has left in its join. */
  function Rank(p: Party): nat {
    match p.pc
    case Locking => 5
    case Inside => 4
    case Waiting => 3
    case Woken => 2
    case Leaving => 1
    case Outside => 0
  }

  lemma {:induction false} RanksWake(ps: seq<Party>)
    ensures Total(Rank, WakeAll(ps)) <= Total(Rank, ps)
  {
    if ps != [] {
      RanksWake(ps[1..]);
      assert WakeAll(ps)[1..] == WakeAll(ps[1..]);
    }
  }

  /** Every step but a call brings the participants closer to the exit, and takes nothing back. */
  lemma StepRanks(n: nat, s: State, m: Move)
    requires m.who < |s.parties| && Inward(m.act) && Enabled(s, m.who, m.act)
    ensures Total(Rank, Step(n, s, m.who, m.act).parties) < Total(Rank, s.parties)
    ensures forall k: nat | AllCalled(s, k) :: AllCalled(Step(n, s, m.who, m.act), k)
  {
    var i, s' := m.who, Step(n, s, m.who, m.act);
    if m.act == CountIn && s.joined + 1 == n {
      RanksWake(s.parties);
      TotalUpdate(Rank, s.parties, i, s.parties[i]);
      var woken := WakeAll(s.parties);
      assert woken[i] == s.parties[i];
      TotalUpdate(Rank, woken, i, s'.parties[i]);
    } else {
      TotalUpdate(Rank, s.parties, i, s'.parties[i]);
    }
    assert forall j: nat | j < |s.parties| :: Called(s'.parties[j]) == Called(s.parties[j]);
  }

  /** From any state of the barrier in which all have called a k-th join, no more moves than the
      ranks add up to, all of participants already inside, bring everybody through it. */
  lemma {:induction false} RoundEnds(n: nat, s: State, g: nat, k: nat) returns (ss: seq<State>, ms: seq<Move>)
    requires Inv(n, s, g) && AllCalled(s, k)
    ensures |ss| == |ms| + 1 && |ms| <= Total(Rank, s.parties) && ss[0] == s
    ensures forall j: nat | j < |ms| :: Next(n, false, ss[j], ms[j], ss[j + 1]) && Inward(ms[j].act)
    ensures AllBack(ss[|ms|], k)
    decreases Total(Rank, s.parties)
  {
    if AllBack(s, k) {
      ss, ms := [s], [];
    } else {
      var m := NoDeadlock(n, s, g, k);
      var s' := Step(n, s, m.who, m.act);
      assert Next(n, false, s, m, s');
      StepRanks(n, s, m);
      var g' := StepInv(n, s, m, s', g);
      assert AllCalled(s', k);
      hide *;
      var rest, moves := RoundEnds(n, s', g', k);
      ss, ms := [s] + rest, [m] + moves;
    }
  }

  /** In every run: whenever all have called a k-th join, at most 5n moves of participants already
      inside, and no further call, are enough for all to have completed it. */
  lemma RunRoundEnds(n: nat, ss: seq<State>, ms: seq<Move>, k: nat) returns (ts: seq<State>, ns: seq<Move>)
    requires IsRun(n, false, ss, ms) && AllCalled(ss[|ms|], k)
    ensures |ts| == |ns| + 1 && |ns| <= 5 * n && ts[0] == ss[|ms|] && AllBack(ts[|ns|], k)
    ensures forall j: nat | j < |ns| :: Next(n, false, ts[j], ns[j], ts[j + 1]) && Inward(ns[j].act)
  {
    var g := RunInv(n, ss, ms, |ms|);
    ts, ns := RoundEnds(n, ss[|ms|], g, k);
    TotalAtMost(Rank, ss[|ms|].parties, 5);
  }

  /** How far a participant has come: five for every join completed, and its place in the current
      one. Blocked and woken count alike, as the broadcast is somebody else's move. */
  function Come(p: Party): nat {
    5 * p.completed +
    match p.pc
    case Outside => 0
    case Locking => 1
    case Inside => 2
    case Waiting => 3
    case Woken => 3
    case Leaving => 4
  }

  lemma {:induction false} WakingMovesNobody(ps: seq<Party>)
    ensures Total(Come, WakeAll(ps)) == Total(Come, ps)
  {
    if ps != [] {
      WakingMovesNobody(ps[1..]);
      assert WakeAll(ps)[1..] == WakeAll(ps[1..]);
    }
  }

  /** Every move takes its participant at least one place further. */
  lemma StepComes(n: nat, s: State, m: Move)
    requires m.who < |s.parties| && Enabled(s, m.who, m.act) && m.act != Spurious
    ensures Total(Come, Step(n, s, m.who, m.act).parties) > Total(Come, s.parties)
  {
    var i, s' := m.who, Step(n, s, m.who, m.act);
    if m.act == CountIn && s.joined + 1 == n {
      WakingMovesNobody(s.parties);
      TotalUpdate(Come, WakeAll(s.parties), i, s'.parties[i]);
    } else {
      TotalUpdate(Come, s.parties, i, s'.parties[i]);
    }
  }

  lemma {:induction false} RunComes(n: nat, ss: seq<State>, ms: seq<Move>, k: nat)
    requires IsRun(n, false, ss, ms) && k <= |ms|
    ensures Total(Come, ss[k].parties) >= k
  {
    if k > 0 {
      RunComes(n, ss, ms, k - 1);
      assert Next(n, false, ss[k - 1], ms[k - 1], ss[k]);
      StepComes(n, ss[k - 1], ms[k - 1]);
    }
  }

  /** In every run, whatever the schedule: after more than n * (5 * k + 4) moves everybody has
      completed k joins. No participant can be passed by, since the others cannot run ahead of it. */
  lemma EveryRunCompletes(n: nat, ss: seq<State>, ms: seq<Move>, k: nat)
    requires IsRun(n, false, ss, ms) && |ms| > n * (5 * k + 4)
    ensures AllBack(ss[|ms|], k)
  {
    var s := ss[|ms|];
    CyclicBarrierSafe(n, ss, ms, |ms|);
    RunComes(n, ss, ms, |ms|);
    if i: nat :| i < n && s.parties[i].completed < k {
      forall j: nat | j < n ensures Come(s.parties[j]) <= 5 * k + 4 {
        assert s.parties[j].completed <= s.parties[i].completed + 1;
      }
      TotalAtMost(Come, s.parties, 5 * k + 4);
    }
  }

  lemma SomeoneAwake(ps: seq<Party>) returns (i: nat)
    requires |Blocked(ps)| < |ps|
    ensures i < |ps| && ps[i].pc != Waiting
  {
    assert Blocked(ps) <= Indices(|ps|) && Blocked(ps) != Indices(|ps|);
    i :| i in Indices(|ps|) && i !in Blocked(ps);
  }

  // ----- spurious wakeups -----

  /** The run of one participant that is woken spuriously and leaves alone. */
  function LoneMoves(): seq<Move> {
    [Move(0, Call), Move(0, Acquire), Move(0, CountIn), Move(0, Spurious), Move(0, Reacquire), Move(0, Return)]
  }

  /** With spurious wakeups, two participants are enough for the first to complete a join that the
      second never entered. */
  lemma SpuriousBreaks(n: nat) returns (ss: seq<State>, ms: seq<Move>)
    requires n >= 2
    ensures IsRun(n, true, ss, ms) && !Safe(ss[|ms|])
  {
    var idle := Party(Outside, 0, 0);
    var rest := seq(n, (i: nat) => idle);
    var s0 := State(0, Free, rest);
    var s1 := State(0, Free, rest[0 := Party(Locking, 0, 0)]);
    var s2 := State(0, HeldBy(0), rest[0 := Party(Inside, 0, 0)]);
    var s3 := State(1, Free, rest[0 := Party(Waiting, 1, 0)]);
    var s4 := State(1, Free, rest[0 := Party(Woken, 1, 0)]);
    var s5 := State(1, HeldBy(0), rest[0 := Party(Leaving, 1, 0)]);
    var s6 := State(1, Free, rest[0 := Party(Outside, 1, 1)]);
    ss := [s0, s1, s2, s3, s4, s5, s6];
    ms := LoneMoves();
    assert Next(n, true, s0, ms[0], s1);
    assert Next(n, true, s1, ms[1], s2);
    assert Next(n, true, s2, ms[2], s3);
    assert Next(n, true, s3, ms[3], s4);
    assert Next(n, true, s4, ms[4], s5);
    assert Next(n, true, s5, ms[5], s6);
    assert s6.parties[0].completed == 1 && s6.parties[1].entered == 0;
  }

  /** A lone participant is never blocked, so nothing can wake it. */
  lemma {:induction false} LoneNeverSpurious(ss: seq<State>, ms: seq<Move>, k: nat) returns (g: nat)
    requires IsRun(1, true, ss, ms) && k <= |ms|
    ensures Inv(1, ss[k], g)
  {
    if k == 0 {
      InitInv(1, ss[0]);
      g := 0;
    } else {
      var h := LoneNeverSpurious(ss, ms, k - 1);
      var s, m := ss[k - 1], ms[k - 1];
      assert Next(1, true, s, m, ss[k]);
      assert Blocked(s.parties) == {} && m.who !in Blocked(s.parties);
      g := StepInv(1, s, m, ss[k], h);
    }
  }

  ghost predicate AlwaysSafe(n: nat, spurious: bool) {
    forall ss: seq<State>, ms: seq<Move> | IsRun(n, spurious, ss, ms) :: Safe(ss[|ms|])
  }

  /** The barrier separates its rounds in every run exactly when no wakeup is spurious or there is
      only one participant. */
  lemma SafeExactly(n: nat, spurious: bool)
    requires n > 0
    ensures AlwaysSafe(n, spurious) <==> !spurious || n == 1
  {
    if !spurious {
      forall ss: seq<State>, ms: seq<Move> | IsRun(n, spurious, ss, ms) ensures Safe(ss[|ms|]) {
        CyclicBarrierSafe(n, ss, ms, |ms|);
      }
    } else if n == 1 {
      forall ss: seq<State>, ms: seq<Move> | IsRun(n, spurious, ss, ms) ensures Safe(ss[|ms|]) {
        var g := LoneNeverSpurious(ss, ms, |ms|);
        InvSafe(1, ss[|ms|], g);
      }
    } else {
      var ss, ms := SpuriousBreaks(n);
      assert IsRun(n, spurious, ss, ms);
    }
  }

  // ----- refinement -----

  function Abstract(s: State): seq<Counts> {
    seq(|s.parties|, i requires 0 <= i < |s.parties| =>
      Counts(s.parties[i].entered, s.parties[i].completed))
  }

  /** Without spurious wakeups every step of the mutex-and-condition barrier is, seen from outside,
      an arrival, a departure the specification allows, or nothing. */
  lemma RefinesSpec(n: nat, ss: seq<State>, ms: seq<Move>, k: nat)
    requires IsRun(n, false, ss, ms) && k < |ms|
    ensures var a, a', i := Abstract(ss[k]), Abstract(ss[k + 1]), ms[k].who;
            i < n == |a| == |a'| &&
            match ms[k].act
            case CountIn => a[i].entered == a[i].completed && a' == Arrive(a, i)
            case Return => CanDepart(a, i) && a' == Depart(a, i)
            case _ => a' == a
    ensures var a, i := Abstract(ss[k]), ms[k].who;
            ms[k].act == Return ==>
              a[i].entered == a[i].completed + 1 && forall j: nat | j < n :: a[j].entered >= a[i].entered
    ensures forall i: nat | i < n ::
              && Abstract(ss[k + 1])[i].entered ==
                 Abstract(ss[k])[i].entered + (if ms[k] == Move(i, CountIn) then 1 else 0)
              && Abstract(ss[k + 1])[i].completed ==
                 Abstract(ss[k])[i].completed + (if ms[k] == Move(i, Return) then 1 else 0)
  {
    var g := RunInv(n, ss, ms, k);
    var s, s', m := ss[k], ss[k + 1], ms[k];
    assert Next(n, false, s, m, s');
    var g' := StepInv(n, s, m, s', g);
    assert PartyInv(s.parties[m.who], g);
    forall j: nat | j < n ensures s.parties[j].entered >= g {
      assert PartyInv(s.parties[j], g);
    }
  }
}
