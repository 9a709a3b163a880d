/** What a cyclic barrier promises its users (POSIX.1-2017, System Interfaces,
    pthread_barrier_wait): how often each participant has arrived and departed, and that a
    departure waits for everybody's arrival. */
module CyclicSpec {

  datatype Counts = Counts(entered: nat, completed: nat)

  function Arrive(cs: seq<Counts>, i: nat): seq<Counts>
    requires i < |cs|
  {
    cs[i := cs[i].(entered := cs[i].entered + 1)]
  }

  ghost predicate CanDepart(cs: seq<Counts>, i: nat)
    requires i < |cs|
  {
    && cs[i].entered == cs[i].completed + 1
    && forall j: nat | j < |cs| :: cs[j].entered >= cs[i].entered
  }

  function Depart(cs: seq<Counts>, i: nat): seq<Counts>
    requires i < |cs|
  {
    cs[i := cs[i].(completed := cs[i].completed + 1)]
  }
}
