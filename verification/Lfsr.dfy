/** The linear-feedback shift registers (Util/FastRand.hpp, lines 7-23), for words of any width. A
    machine word is the sequence of its bits, least significant first. */
module Lfsr {
  import opened Basics

  type Word = seq<bool>

  function Zero(n: nat): (w: Word)
    ensures |w| == n
  {
    seq(n, _ => false)
  }

  /** The logical right shift by one. */
  function ShiftRight(w: Word): (r: Word)
    ensures |r| == |w|
  {
    if w == [] then [] else w[1..] + [false]
  }

  function And(a: Word, b: Word): (r: Word)
    requires |a| == |b|
    ensures |r| == |a|
  {
    seq(|a|, i requires 0 <= i < |a| => a[i] && b[i])
  }

  function Xor(a: Word, b: Word): (r: Word)
    requires |a| == |b|
    ensures |r| == |a|
  {
    seq(|a|, i requires 0 <= i < |a| => a[i] != b[i])
  }

  function One(n: nat): (w: Word)
    ensures |w| == n
  {
    seq(n, i => i == 0)
  }

  /** Two's complement negation: the bits are inverted and `carry` is added at the bottom. */
  function Negate(w: Word, carry: bool): (r: Word)
    ensures |r| == |w|
  {
    if w == [] then [] else [!w[0] != carry] + Negate(w[1..], carry && !w[0])
  }

  /** The mask: bit t - 1 for every nonzero tap t. */
  function Mask(n: nat, taps: seq<nat>): (w: Word)
    ensures |w| == n
  {
    seq(n, i requires 0 <= i < n => i + 1 in taps)
  }

  /** (s >> 1) ^ (-(s & 1) & mask) */
  function Shifted(s: Word, mask: Word): (r: Word)
    requires |s| == |mask|
    ensures |r| == |s|
  {
    Xor(ShiftRight(s), And(Negate(And(s, One(|s|)), true), mask))
  }

  /** A generator of one of the widths, its seed overwritten in place. */
  class Generator {
    const mask: Word
    var seed: Word

    constructor (mask: Word, seed: Word)
      requires |seed| == |mask|
      ensures this.mask == mask && this.seed == seed
    {
      this.mask := mask;
      this.seed := seed;
    }

    /** One call; `random` is what rand() would supply for a zero seed. */
    method RandLFSR(random: Word) returns (r: Word)
      requires |seed| == |mask| == |random|
      modifies this
      ensures |seed| == |mask| && r == seed
      ensures seed == Shifted(if old(seed) == Zero(|mask|) then random else old(seed), mask)
    {
      if seed == Zero(|mask|) {
        seed := random;
      }
      seed := Shifted(seed, mask);
      r := seed;
    }
  }

  // ----- what a step does -----

  lemma {:induction false} NegateZero(w: Word, carry: bool)
    requires forall i | 0 <= i < |w| :: !w[i]
    ensures forall i | 0 <= i < |w| :: Negate(w, carry)[i] == !carry
  {
    if w != [] { NegateZero(w[1..], carry); }
  }

  lemma NegateBit(s: Word)
    ensures forall i | 0 <= i < |s| :: Negate(And(s, One(|s|)), true)[i] == s[0]
  {
    if s != [] {
      var low := And(s, One(|s|));
      NegateZero(low[1..], !low[0]);
    }
  }

  /** Bit by bit: the word moves down, and the taps are flipped when the lowest bit was set. */
  lemma ShiftedBits(s: Word, mask: Word)
    requires |s| == |mask|
    ensures forall i | 0 <= i < |s| ::
              Shifted(s, mask)[i] == ((i + 1 < |s| && s[i + 1]) != (s[0] && mask[i]))
  {
    NegateBit(s);
  }

  predicate HasTop(mask: Word) {
    |mask| > 0 && mask[|mask| - 1]
  }

  /** The step undone: the top bit tells what the lowest bit was. */
  function Unshifted(r: Word, mask: Word): (s: Word)
    requires |r| == |mask| > 0
    ensures |s| == |r|
  {
    var low := r[|r| - 1];
    [low] + seq(|r| - 1, i requires 0 <= i < |r| - 1 => r[i] != (low && mask[i]))
  }

  lemma UnshiftedShifted(s: Word, mask: Word)
    requires HasTop(mask) && |s| == |mask|
    ensures Unshifted(Shifted(s, mask), mask) == s
  {
    ShiftedBits(s, mask);
    hide Shifted;
    var n, r := |s|, Shifted(s, mask);
    assert r[n - 1] == s[0];
    forall i | 0 <= i < n ensures Unshifted(r, mask)[i] == s[i] {
      if i > 0 { assert r[i - 1] == (s[i] != (s[0] && mask[i - 1])); }
    }
  }

  lemma ShiftedUnshifted(r: Word, mask: Word)
    requires HasTop(mask) && |r| == |mask|
    ensures Shifted(Unshifted(r, mask), mask) == r
  {
    var n, s := |r|, Unshifted(r, mask);
    ShiftedBits(s, mask);
    hide Shifted;
    forall i | 0 <= i < n ensures Shifted(s, mask)[i] == r[i] {
      if i + 1 < n { assert s[i + 1] == (r[i] != (s[0] && mask[i])); }
    }
  }

  /** A mask with its top bit set makes the step a bijection... */
  lemma StepBijective(s: Word, mask: Word)
    requires HasTop(mask) && |s| == |mask|
    ensures Unshifted(Shifted(s, mask), mask) == s
    ensures Shifted(Unshifted(s, mask), mask) == s
  {
    hide Shifted, Unshifted;
    UnshiftedShifted(s, mask);
    ShiftedUnshifted(s, mask);
  }

  /** ... that keeps zero and the nonzero words apart... */
  lemma NeverZero(s: Word, mask: Word)
    requires HasTop(mask) && |s| == |mask|
    ensures Shifted(s, mask) == Zero(|s|) <==> s == Zero(|s|)
  {
    hide Shifted, Unshifted;
    StepBijective(s, mask);
    StepBijective(Zero(|s|), mask);
    ShiftedBits(Zero(|s|), mask);
    assert Shifted(Zero(|s|), mask) == Zero(|s|);
  }

  /** ... and without the top bit it is not one: the zero word has a second preimage. */
  lemma TopBitNeeded(mask: Word) returns (s: Word)
    requires |mask| > 0 && !HasTop(mask)
    ensures |s| == |mask| && s != Zero(|mask|) && Shifted(s, mask) == Zero(|mask|)
  {
    hide Shifted;
    var n := |mask|;
    s := [true] + mask[..n - 1];
    assert s[0] && !Zero(n)[0];
    ShiftedBits(s, mask);
    assert forall i: nat | i + 1 < n :: s[i + 1] == mask[i];
    Pointwise(Shifted(s, mask), n);
  }

  lemma Pointwise(w: Word, n: nat)
    requires |w| == n && forall i | 0 <= i < n :: !w[i]
    ensures w == Zero(n)
  {
  }

  function Iterate(s: Word, mask: Word, k: nat): (r: Word)
    requires |s| == |mask|
    ensures |r| == |s|
  {
    if k == 0 then s else Shifted(Iterate(s, mask, k - 1), mask)
  }

  lemma {:induction false} IterateCancel(s: Word, mask: Word, j: nat, k: nat)
    requires HasTop(mask) && |s| == |mask| && j <= k
    requires Iterate(s, mask, j) == Iterate(s, mask, k)
    ensures Iterate(s, mask, k - j) == s
  {
    hide Shifted, Unshifted;
    if j > 0 {
      StepBijective(Iterate(s, mask, j - 1), mask);
      StepBijective(Iterate(s, mask, k - 1), mask);
      IterateCancel(s, mask, j - 1, k - 1);
    }
  }

  // ----- counting words -----

  function Pow2(n: nat): nat {
    if n == 0 then 1 else 2 * Pow2(n - 1)
  }

  function Prefixed(b: bool, ws: set<Word>): set<Word> {
    set w | w in ws :: [b] + w
  }

  lemma {:induction false} PrefixedSize(b: bool, ws: set<Word>)
    ensures |Prefixed(b, ws)| <= |ws|
    decreases |ws|
  {
    if ws == {} {
      assert Prefixed(b, ws) == {};
    } else {
      var w :| w in ws;
      PrefixedSize(b, ws - {w});
      assert Prefixed(b, ws) == Prefixed(b, ws - {w}) + {[b] + w};
    }
  }

  /** All words of width `n`. */
  function Words(n: nat): set<Word> {
    if n == 0 then {[]} else Prefixed(false, Words(n - 1)) + Prefixed(true, Words(n - 1))
  }

  lemma {:induction false} WordsSize(n: nat)
    ensures |Words(n)| <= Pow2(n)
  {
    if n > 0 {
      WordsSize(n - 1);
      PrefixedSize(false, Words(n - 1));
      PrefixedSize(true, Words(n - 1));
    }
  }

  lemma {:induction false} WordsComplete(w: Word)
    ensures w in Words(|w|)
  {
    if w != [] {
      WordsComplete(w[1..]);
      assert w == [w[0]] + w[1..];
      assert w in Prefixed(w[0], Words(|w| - 1));
    }
  }

  /** Every orbit is purely periodic: each nonzero word returns to itself, after at most 2^n - 1
      steps. */
  lemma ReturnsToSeed(s: Word, mask: Word) returns (period: nat)
    requires HasTop(mask) && |s| == |mask| && s != Zero(|s|)
    ensures 0 < period < Pow2(|s|) && Iterate(s, mask, period) == s
  {
    hide Shifted, Words, Pow2;
    var n := |s|;
    WordsSize(n);
    WordsComplete(Zero(n));
    var nonzero := Words(n) - {Zero(n)};
    assert |nonzero| < Pow2(n);
    var seen: set<Word>, k := {}, 0;
    while Iterate(s, mask, k) !in seen
      invariant |seen| == k && seen <= nonzero
      invariant forall w | w in seen :: exists j: nat :: j < k && Iterate(s, mask, j) == w
      decreases |nonzero| - |seen|
    {
      var w := Iterate(s, mask, k);
      IterateNonzero(s, mask, k);
      WordsComplete(w);
      SubsetSize(seen + {w}, nonzero);
      seen := seen + {w};
      k := k + 1;
    }
    SubsetSize(seen, nonzero);
    var j: nat :| j < k && Iterate(s, mask, j) == Iterate(s, mask, k);
    IterateCancel(s, mask, j, k);
    period := k - j;
  }

  lemma {:induction false} IterateNonzero(s: Word, mask: Word, k: nat)
    requires HasTop(mask) && |s| == |mask| && s != Zero(|s|)
    ensures Iterate(s, mask, k) != Zero(|s|)
  {
    if k > 0 {
      IterateNonzero(s, mask, k - 1);
      NeverZero(Iterate(s, mask, k - 1), mask);
    }
  }

  /** The four declared masks, bit by bit; they meet the condition. */
  lemma DeclaredMasks()
    ensures HasTop(Mask(64, [64, 63, 61, 60])) && HasTop(Mask(32, [32, 30, 26, 25]))
    ensures HasTop(Mask(16, [16, 14, 13, 11])) && HasTop(Mask(8, [8, 6, 5, 4]))
    ensures forall i: nat | i < 64 :: Mask(64, [64, 63, 61, 60])[i] <==> i in {63, 62, 60, 59}
    ensures forall i: nat | i < 32 :: Mask(32, [32, 30, 26, 25])[i] <==> i in {31, 29, 25, 24}
    ensures forall i: nat | i < 16 :: Mask(16, [16, 14, 13, 11])[i] <==> i in {15, 13, 12, 10}
    ensures forall i: nat | i < 8 :: Mask(8, [8, 6, 5, 4])[i] <==> i in {7, 5, 4, 3}
  {
    assert [64, 63, 61, 60][0] == 64 && [32, 30, 26, 25][0] == 32;
    assert [16, 14, 13, 11][0] == 16 && [8, 6, 5, 4][0] == 8;
  }
}
