/** The part of C memory that the chunk index lives in: tables of 1024 machine words, obtained
    from malloc and named by their addresses. A word may hold the address of a table, the address
    of a mapping, or 0; nothing but the height tells which. */
module CMemory {
  import opened Basics

  /** The live tables, by address. */
  type Mem = map<nat, seq<nat>>

  function Zeros(): (s: seq<nat>) {
    seq(FANOUT, _ => 0)
  }

  /** The table `s` with slot `i` overwritten. */
  function With(s: seq<nat>, i: nat, w: nat): seq<nat>
    requires i < |s|
  {
    s[i := w]
  }

  class CHeap {
    var tables: map<nat, array<nat>>
    var next: nat
    ghost var mem: Mem
    ghost var repr: set<object>

    ghost predicate Valid()
      reads this, repr
      ensures Valid() ==> this in repr
    {
      && this in repr
      && next > 0
      && tables.Keys == mem.Keys
      && (forall a | a in tables :: 0 < a < next && tables[a] in repr)
      && (forall a | a in tables :: tables[a].Length == FANOUT && tables[a][..] == mem[a])
      && (forall a, b | a in tables && b in tables && a != b :: tables[a] != tables[b])
    }

    constructor ()
      ensures Valid() && fresh(repr) && mem == map[]
    {
      tables, next, mem := map[], 1, map[];
      repr := {this};
    }

    /** malloc(1024 * sizeof(unsigned long)), assumed to succeed: an unused nonzero address, with
        arbitrary contents. */
    method Malloc() returns (a: nat)
      requires Valid()
      modifies repr
      ensures Valid() && fresh(repr - old(repr))
      ensures a != 0 && a !in old(mem)
      ensures a in mem && |mem[a]| == FANOUT && mem == old(mem)[a := mem[a]]
    {
      var t := new nat[FANOUT];
      a := next;
      next := next + 1;
      tables := tables[a := t];
      mem := mem[a := t[..]];
      repr := repr + {t};
    }

    /** free(a). Requiring a live address is what rules out freeing twice. */
    method Free(a: nat)
      requires Valid() && a in mem
      modifies repr
      ensures Valid() && fresh(repr - old(repr))
      ensures mem == old(mem) - {a}
    {
      tables := tables - {a};
      mem := mem - {a};
    }

    method Load(a: nat, i: nat) returns (w: nat)
      requires Valid() && a in mem && i < FANOUT
      ensures w == mem[a][i]
    {
      w := tables[a][i];
    }

    method Store(a: nat, i: nat, w: nat)
      requires Valid() && a in mem && i < FANOUT
      modifies repr
      ensures Valid() && repr == old(repr)
      ensures |old(mem[a])| == FANOUT && mem == old(mem)[a := With(old(mem[a]), i, w)]
    {
      var t := tables[a];
      t[i] := w;
      mem := mem[a := With(mem[a], i, w)];
    }

    /** The loop that clears a table slot by slot. */
    method ZeroTable(a: nat)
      requires Valid() && a in mem
      modifies repr
      ensures Valid() && repr == old(repr)
      ensures mem == old(mem)[a := Zeros()]
    {
      var i := 0;
      while i < FANOUT
        invariant 0 <= i <= FANOUT
        invariant Valid() && repr == old(repr)
        invariant a in mem && |mem[a]| == FANOUT && mem == old(mem)[a := mem[a]]
        invariant forall j | 0 <= j < i :: mem[a][j] == 0
      {
        Store(a, i, 0);
        i := i + 1;
      }
      assert mem[a] == Zeros();
    }
  }
}
