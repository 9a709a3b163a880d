/** The shuffled record order and the record loops it drives (iozone_test.c, lines 510-532 and
    549-606; random_perf_test.c, lines 98-147). lrand48 is a sequence of arbitrary draws. */
module RandomOrder {
  import opened Basics

  /** Every record number below |s| exactly once. */
  predicate IsPermutation(s: seq<nat>) {
    && (forall i | 0 <= i < |s| :: s[i] < |s|)
    && (forall i, j | 0 <= i < j < |s| :: s[i] != s[j])
  }

  function Swapped(s: seq<nat>, i: nat, j: nat): (r: seq<nat>)
    requires i < |s| && j < |s|
    ensures |r| == |s|
  {
    s[i := s[j]][j := s[i]]
  }

  lemma SwapKeeps(s: seq<nat>, i: nat, j: nat)
    requires i < |s| && j < |s| && IsPermutation(s)
    ensures IsPermutation(Swapped(s, i, j))
  {
  }

  /** The swap loop on values: what the draws make of the identity. */
  function Shuffled(s: seq<nat>, draws: seq<nat>, n: nat): (r: seq<nat>)
    requires n <= |draws| == |s|
    ensures |r| == |s|
  {
    if n == 0 then s else Swapped(Shuffled(s, draws, n - 1), n - 1, draws[n - 1] % |s|)
  }

  function Identity(n: nat): seq<nat> {
    seq(n, i requires 0 <= i < n => i)
  }

  /** The two loops that fill and shuffle recnum. */
  method Shuffle(recnum: array<nat>, draws: seq<nat>)
    requires |draws| == recnum.Length
    modifies recnum
    ensures recnum[..] == Shuffled(Identity(recnum.Length), draws, recnum.Length)
    ensures IsPermutation(recnum[..])
  {
    var count := recnum.Length;
    var i: nat := 0;
    while i < count
      invariant i <= count && forall j | 0 <= j < i :: recnum[j] == j
    {
      recnum[i] := i;
      i := i + 1;
    }
    assert recnum[..] == Identity(count);
    i := 0;
    while i < count
      invariant i <= count && recnum[..] == Shuffled(Identity(count), draws, i)
      invariant IsPermutation(recnum[..])
    {
      var r := draws[i] % count;
      SwapKeeps(recnum[..], i, r);
      ghost var before := recnum[..];
      var tmp := recnum[i];
      recnum[i] := recnum[r];
      recnum[r] := tmp;
      assert recnum[..] == Swapped(before, i, r);
      i := i + 1;
    }
  }

  /** What the loop does, entry by entry: it starts from the records in order, and draw `n` exchanges
      entry n with the entry it names and leaves all others. */
  lemma OneDraw(s: seq<nat>, draws: seq<nat>, n: nat)
    requires n < |draws| == |s|
    ensures Shuffled(s, draws, 0) == s
    ensures var before, after, r := Shuffled(s, draws, n), Shuffled(s, draws, n + 1), draws[n] % |s|;
            && after[n] == before[r] && after[r] == before[n]
            && forall j: nat | j < |s| && j != n && j != r :: after[j] == before[j]
  {
  }

  lemma InOrder(n: nat)
    ensures |Identity(n)| == n && forall j: nat | j < n :: Identity(n)[j] == j
  {
  }

  lemma {:induction false} FirstDraws(s: seq<nat>, draws: seq<nat>, draws': seq<nat>, n: nat)
    requires n <= |draws| == |draws'| == |s| && draws[..n] == draws'[..n]
    ensures Shuffled(s, draws, n) == Shuffled(s, draws', n)
  {
    if n > 0 {
      assert draws[..n - 1] == draws[..n][..n - 1] == draws'[..n - 1];
      assert draws[n - 1] == draws[..n][n - 1] == draws'[n - 1];
      FirstDraws(s, draws, draws', n - 1);
    }
  }

  /** Draws whose first `n` put the first `n` entries of `q` in place. */
  lemma {:induction false} DrawsFor(q: seq<nat>, n: nat) returns (draws: seq<nat>)
    requires IsPermutation(q) && n <= |q|
    ensures |draws| == |q|
    ensures IsPermutation(Shuffled(Identity(|q|), draws, n))
    ensures forall j: nat | j < n :: Shuffled(Identity(|q|), draws, n)[j] == q[j]
  {
    var s := Identity(|q|);
    if n == 0 {
      draws := seq(|q|, _ => 0);
    } else {
      draws := DrawsFor(q, n - 1);
      draws := NextDraw(q, draws, n - 1);
    }
  }

  /** The draw that brings the next entry of `q` into place. */
  lemma NextDraw(q: seq<nat>, draws: seq<nat>, n: nat) returns (next: seq<nat>)
    requires IsPermutation(q) && n < |q| == |draws|
    requires IsPermutation(Shuffled(Identity(|q|), draws, n))
    requires forall j: nat | j < n :: Shuffled(Identity(|q|), draws, n)[j] == q[j]
    ensures |next| == |q|
    ensures IsPermutation(Shuffled(Identity(|q|), next, n + 1))
    ensures forall j: nat | j < n + 1 :: Shuffled(Identity(|q|), next, n + 1)[j] == q[j]
  {
    hide *;
    var s := Identity(|q|);
    InOrder(|q|);
    var before := Shuffled(s, draws, n);
    EntryWithin(q, n);
    var r := VisitedOnce(before, q[n]);
    if r < n { Distinct(q, r, n); }
    next := draws[n := r];
    SmallRemainder(r, |q|);
    assert draws[..n] == next[..n];
    FirstDraws(s, draws, next, n);
    OneDraw(s, next, n);
    DrawKeeps(s, next, n);
  }

  lemma SmallRemainder(r: nat, n: nat)
    requires r < n
    ensures r % n == r
  {
  }

  lemma EntryWithin(q: seq<nat>, i: nat)
    requires IsPermutation(q) && i < |q|
    ensures q[i] < |q|
  {
  }

  lemma Distinct(q: seq<nat>, i: nat, j: nat)
    requires IsPermutation(q) && i < j < |q|
    ensures q[i] != q[j]
  {
  }

  lemma DrawKeeps(s: seq<nat>, draws: seq<nat>, n: nat)
    requires n < |draws| == |s| && IsPermutation(Shuffled(s, draws, n))
    ensures IsPermutation(Shuffled(s, draws, n + 1))
  {
    SwapKeeps(Shuffled(s, draws, n), n, draws[n] % |s|);
    hide IsPermutation, Swapped;
  }

  /** Every order of the records is the outcome of some draws. */
  lemma EveryOrder(q: seq<nat>) returns (draws: seq<nat>)
    requires IsPermutation(q)
    ensures |draws| == |q| && Shuffled(Identity(|q|), draws, |q|) == q
  {
    InOrder(|q|);
    draws := DrawsFor(q, |q|);
  }

  function Elements(s: seq<nat>): set<nat> {
    set i | 0 <= i < |s| :: s[i]
  }

  lemma {:induction false} DistinctSize(s: seq<nat>)
    requires forall i, j | 0 <= i < j < |s| :: s[i] != s[j]
    ensures |Elements(s)| == |s|
  {
    if s == [] {
      assert Elements(s) == {};
    } else {
      var front, last := s[..|s| - 1], s[|s| - 1];
      DistinctSize(front);
      assert Elements(s) == Elements(front) + {last};
      assert last !in Elements(front);
    }
  }

  /** Each record is visited, and by one iteration only. */
  lemma VisitedOnce(s: seq<nat>, record: nat) returns (i: nat)
    requires IsPermutation(s) && record < |s|
    ensures i < |s| && s[i] == record && forall j: nat | j < |s| && s[j] == record :: j == i
  {
    DistinctSize(s);
    var all := Indices(|s|);
    assert Elements(s) <= all;
    SubsetSize(Elements(s), all);
    assert record in Elements(s);
    i :| 0 <= i < |s| && s[i] == record;
  }

  /** Byte `x` of record `r`. */
  function Pos(r: nat, x: nat, size: nat): nat {
    size * r + x
  }

  lemma PosUnique(r: nat, x: nat, r': nat, x': nat, size: nat)
    requires x < size && x' < size && Pos(r, x, size) == Pos(r', x', size)
    ensures r == r' && x == x'
  {
    if r < r' {
      Apart(size, r, r');
    } else if r' < r {
      Apart(size, r', r);
    }
  }

  lemma PosInFile(r: nat, x: nat, n: nat, size: nat)
    requires x < size && r < n
    ensures Pos(r, x, size) < size * n && size * r + size <= size * n
  {
    assert size * (r + 1) <= size * n;
  }

  lemma Quotient(b: nat, size: nat, n: nat)
    requires size > 0 && b < size * n
    ensures b / size < n
  {
    var q := b / size;
    assert b == size * q + b % size;
    if n < q { Apart(size, n, q); }
  }

  /** The byte ranges of the shuffled records tile the file: every byte below size * count lies in
      the range of exactly one iteration. */
  lemma RangesTile(s: seq<nat>, size: nat, b: nat) returns (i: nat)
    requires IsPermutation(s) && size > 0 && b < size * |s|
    ensures i < |s| && size * s[i] <= b < size * s[i] + size
    ensures forall j: nat | j < |s| && size * s[j] <= b < size * s[j] + size :: j == i
  {
    var r, x := b / size, b % size;
    assert b == Pos(r, x, size);
    Quotient(b, size, |s|);
    i := VisitedOnce(s, r);
    forall j: nat | j < |s| && size * s[j] <= b < size * s[j] + size ensures j == i {
      PosUnique(s[j], b - size * s[j], r, x, size);
    }
  }

  /** lseek and write of one record. */
  method WriteRecord(file: array<Byte>, offset: nat, buf: seq<Byte>)
    requires offset + |buf| <= file.Length
    modifies file
    ensures forall b: nat | b < file.Length ::
              file[b] == if offset <= b < offset + |buf| then buf[b - offset] else old(file[b])
  {
    var x: nat := 0;
    while x < |buf|
      invariant x <= |buf|
      invariant forall b: nat | b < file.Length ::
                  file[b] == if offset <= b < offset + x then buf[b - offset] else old(file[b])
    {
      file[offset + x] := buf[x];
      x := x + 1;
    }
  }

  /** Record `r` holds the buffer. */
  ghost predicate Holds(f: seq<Byte>, r: nat, buf: seq<Byte>) {
    |buf| * r + |buf| <= |f| && forall x: nat | x < |buf| :: f[Pos(r, x, |buf|)] == buf[x]
  }

  /** The first `n` records of the order hold the buffer; nothing beyond the records changed. */
  ghost predicate Written(order: seq<nat>, n: nat, buf: seq<Byte>, f0: seq<Byte>, f: seq<Byte>)
    requires n <= |order|
  {
    && |f| == |f0| && |buf| * |order| <= |f|
    && (forall j: nat | j < n :: Holds(f, order[j], buf))
    && (forall b: nat | |buf| * |order| <= b < |f| :: f[b] == f0[b])
  }

  lemma WrittenNext(order: seq<nat>, n: nat, buf: seq<Byte>, f0: seq<Byte>, f: seq<Byte>, f': seq<Byte>)
    requires IsPermutation(order) && n < |order| && Written(order, n, buf, f0, f)
    requires |f'| == |f|
    requires forall b: nat | b < |f| ::
               f'[b] == var o := |buf| * order[n]; if o <= b < o + |buf| then buf[b - o] else f[b]
    ensures Written(order, n + 1, buf, f0, f')
  {
    hide IsPermutation, Holds;
    forall j: nat | j < n + 1 ensures Holds(f', order[j], buf) {
      RecordNext(order, n, buf, f, f', j);
    }
    forall b: nat | |buf| * |order| <= b < |f| ensures f'[b] == f0[b] {
      EntryWithin(order, n);
      if |buf| > 0 { PosInFile(order[n], 0, |order|, |buf|); }
    }
  }

  lemma RecordNext(order: seq<nat>, n: nat, buf: seq<Byte>, f: seq<Byte>, f': seq<Byte>, j: nat)
    requires IsPermutation(order) && j <= n < |order| && |buf| * |order| <= |f| == |f'|
    requires j < n ==> Holds(f, order[j], buf)
    requires forall b: nat | b < |f| ::
               f'[b] == var o := |buf| * order[n]; if o <= b < o + |buf| then buf[b - o] else f[b]
    ensures Holds(f', order[j], buf)
  {
    var size := |buf|;
    EntryWithin(order, j);
    if j < n { Distinct(order, j, n); }
    hide IsPermutation;
    if size > 0 { PosInFile(order[j], 0, |order|, size); }
    forall x: nat | x < size ensures f'[Pos(order[j], x, size)] == buf[x] {
      var b := Pos(order[j], x, size);
      if j < n && size * order[n] <= b < size * order[n] + size {
        PosUnique(order[j], x, order[n], b - size * order[n], size);
      }
    }
  }

  lemma WrittenAll(order: seq<nat>, buf: seq<Byte>, f0: seq<Byte>, f: seq<Byte>)
    requires IsPermutation(order) && |buf| > 0 && Written(order, |order|, buf, f0, f)
    ensures forall b: nat | b < |f| ::
              f[b] == if b < |buf| * |order| then buf[b % |buf|] else f0[b]
  {
    forall b: nat | b < |f|
      ensures f[b] == if b < |buf| * |order| then buf[b % |buf|] else f0[b]
    {
      if b < |buf| * |order| { WrittenByte(order, buf, f0, f, b); }
    }
  }

  lemma WrittenByte(order: seq<nat>, buf: seq<Byte>, f0: seq<Byte>, f: seq<Byte>, b: nat)
    requires IsPermutation(order) && |buf| > 0 && Written(order, |order|, buf, f0, f)
    requires b < |buf| * |order|
    ensures f[b] == buf[b % |buf|]
  {
    var size := |buf|;
    var j := RangesTile(order, size, b);
    hide IsPermutation;
    var x := b - size * order[j];
    assert b == Pos(order[j], x, size);
    assert f[Pos(order[j], x, size)] == buf[x];
    hide Written;
    PosUnique(order[j], x, b / size, b % size, size);
  }

  /** The random write phase: in whatever order, the whole of [0, size * count) ends up as copies of
      the buffer, and nothing beyond is touched. */
  method RandomWrite(file: array<Byte>, recnum: array<nat>, buf: seq<Byte>)
    requires file as object != recnum
    requires IsPermutation(recnum[..]) && |buf| > 0 && |buf| * recnum.Length <= file.Length
    modifies file
    ensures forall b: nat | b < file.Length ::
              file[b] == if b < |buf| * recnum.Length then buf[b % |buf|] else old(file[b])
  {
    ghost var order := recnum[..];
    var i: nat := 0;
    while i < recnum.Length
      invariant i <= recnum.Length && recnum[..] == order
      invariant Written(order, i, buf, old(file[..]), file[..])
    {
      ghost var before := file[..];
      PosInFile(order[i], 0, |order|, |buf|);
      WriteRecord(file, |buf| * recnum[i], buf);
      WrittenNext(order, i, buf, old(file[..]), before, file[..]);
      i := i + 1;
    }
    WrittenAll(order, buf, old(file[..]), file[..]);
  }
}
