/** Small facts shared by the models. */
module Basics {

  type Byte = x: nat | x < 256

  const TWO_32: nat := 0x1_0000_0000

  /** Slots in one table of the chunk index. */
  const FANOUT: nat := 1024

  /** Blocks of `size` at different indices are apart. */
  lemma Apart(size: nat, a: nat, b: nat)
    requires a < b
    ensures size * a + size <= size * b
  {
    assert size * (a + 1) <= size * b;
  }

  /** The numbers below `n`. */
  function Indices(n: nat): (r: set<nat>)
    ensures |r| == n && forall i: nat :: i in r <==> i < n
  {
    if n == 0 then {} else Indices(n - 1) + {n - 1}
  }

  function Total<T>(f: T -> nat, xs: seq<T>): nat {
    if xs == [] then 0 else f(xs[0]) + Total(f, xs[1..])
  }

  /** Replacing one element changes a total by the difference. */
  lemma {:induction false} TotalUpdate<T>(f: T -> nat, xs: seq<T>, i: nat, x: T)
    requires i < |xs|
    ensures Total(f, xs[i := x]) == Total(f, xs) - f(xs[i]) + f(x)
  {
    if i == 0 {
      assert xs[0 := x][1..] == xs[1..];
    } else {
      TotalUpdate(f, xs[1..], i - 1, x);
      assert xs[i := x][1..] == xs[1..][i - 1 := x];
    }
  }

  /** A total of values of at most `most`. */
  lemma {:induction false} TotalAtMost<T>(f: T -> nat, xs: seq<T>, most: nat)
    requires forall i: nat | i < |xs| :: f(xs[i]) <= most
    ensures Total(f, xs) <= |xs| * most
  {
    if xs != [] {
      assert forall i: nat | i < |xs[1..]| :: xs[1..][i] == xs[i + 1];
      TotalAtMost(f, xs[1..], most);
      assert |xs| * most == |xs[1..]| * most + most;
    }
  }

  lemma SubsetSize<T>(a: set<T>, b: set<T>)
    requires a <= b
    ensures |a| <= |b| && (|a| == |b| ==> a == b)
  {
    assert b == a + (b - a);
  }
}
