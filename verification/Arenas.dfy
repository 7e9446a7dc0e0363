/** The pool of record arrays by address: an arena is a range of memory, the fill loops stride through
    it, and the blocks they find in all arenas together do not overlap. */
module Arenas {
  import opened Ledger
  import opened Pools
  import Trace
  import TraceSpec

  /** Bytes of the record array of one block. */
  const BLOCK := Trace.MEMREC_BYTES * TraceSpec.MEMRECPERENTRY

  /** What one malloc returns: room for count blocks. */
  datatype Arena = Arena(base: nat, count: nat)

  function BlockAt(a: Arena, i: nat): nat {
    a.base + i * BLOCK
  }

  function Pointers(a: Arena): seq<nat> {
    seq(a.count, i requires 0 <= i < a.count => BlockAt(a, i))
  }

  /** malloc never returns memory twice. */
  predicate Apart(a: Arena, b: Arena) {
    BlockAt(a, a.count) <= b.base || BlockAt(b, b.count) <= a.base
  }

  predicate BlocksApart(p: nat, q: nat) {
    p + BLOCK <= q || q + BLOCK <= p
  }

  ghost predicate AllApart(arenas: seq<Arena>) {
    forall i, j :: 0 <= i < j < |arenas| ==> Apart(arenas[i], arenas[j])
  }

  ghost predicate IsBlock(arenas: seq<Arena>, p: nat) {
    exists i :: 0 <= i < |arenas| && p in Pointers(arenas[i])
  }

  lemma InOneArena(a: Arena, p: nat, q: nat)
    requires p in Pointers(a) && q in Pointers(a) && p != q
    ensures BlocksApart(p, q)
  {
    var i :| 0 <= i < a.count && Pointers(a)[i] == p;
    var j :| 0 <= j < a.count && Pointers(a)[j] == q;
    assert i < j ==> BlockAt(a, i) + BLOCK <= BlockAt(a, j);
    assert j < i ==> BlockAt(a, j) + BLOCK <= BlockAt(a, i);
  }

  lemma InTwoArenas(a: Arena, b: Arena, p: nat, q: nat)
    requires Apart(a, b) && p in Pointers(a) && q in Pointers(b)
    ensures BlocksApart(p, q)
  {
    var i :| 0 <= i < a.count && Pointers(a)[i] == p;
    var j :| 0 <= j < b.count && Pointers(b)[j] == q;
    assert BlockAt(a, i) + BLOCK <= BlockAt(a, a.count);
    assert BlockAt(b, j) + BLOCK <= BlockAt(b, b.count);
  }

  /** Two blocks, of the same arena or of different ones, have no byte in common. */
  lemma BlocksNeverOverlap(arenas: seq<Arena>, p: nat, q: nat)
    requires AllApart(arenas) && IsBlock(arenas, p) && IsBlock(arenas, q) && p != q
    ensures BlocksApart(p, q)
  {
    hide Apart, BlocksApart, Pointers;
    var i :| 0 <= i < |arenas| && p in Pointers(arenas[i]);
    var j :| 0 <= j < |arenas| && q in Pointers(arenas[j]);
    if i == j {
      InOneArena(arenas[i], p, q);
    } else if i < j {
      InTwoArenas(arenas[i], arenas[j], p, q);
    } else {
      InTwoArenas(arenas[j], arenas[i], q, p);
      Swapped(p, q);
    }
  }

  lemma Swapped(p: nat, q: nat)
    ensures BlocksApart(p, q) <==> BlocksApart(q, p)
  {
  }

  lemma PointersDistinct(a: Arena)
    ensures Distinct(Pointers(a))
  {
  }

  /** The fill loop of initMemory. */
  method FillFirst(a: Arena) returns (table: array<nat>)
    ensures fresh(table) && table[..] == Pointers(a)
  {
    table := new nat[a.count];
    for i := 0 to a.count
      invariant forall k :: 0 <= k < i ==> table[k] == BlockAt(a, k)
    {
      table[i] := a.base + BLOCK * i;
    }
  }

  /** The fill loop of the growth branch: each pointer is one block behind the one before. */
  method FillGrown(a: Arena) returns (table: array<nat>)
    requires a.count > 0
    ensures fresh(table) && table[..] == Pointers(a)
  {
    table := new nat[a.count];
    table[0] := a.base;
    for i := 1 to a.count
      invariant forall k :: 0 <= k < i ==> table[k] == BlockAt(a, k)
    {
      table[i] := table[i - 1] + BLOCK;
    }
  }

  /** The pool of record arrays, with the arenas it has got. */
  class RecArrPool {
    const pool: Pool<nat>
    ghost var arenas: seq<Arena>

    ghost predicate Valid()
      reads this, pool, pool.table
    {
      pool.Valid() && AllApart(arenas) && forall p :: p in pool.all <==> IsBlock(arenas, p)
    }

    constructor (a: Arena)
      requires a.count > 0
      ensures Valid() && arenas == [a] && pool.size == a.count
    {
      PointersDistinct(a);
      var table := FillFirst(a);
      pool := new Pool(table[..], BLOCK);
      arenas := [a];
      new;
      assert forall p :: IsBlock([a], p) <==> p in Pointers([a][0]);
    }

    /** Growth by an arena that is apart from the others. */
    method Grow(a: Arena)
      requires Valid() && a.count == pool.size && forall i :: 0 <= i < |arenas| ==> Apart(arenas[i], a)
      modifies `arenas, pool
      ensures Valid() && arenas == old(arenas) + [a] && pool.free == old(pool.free) + Pointers(a)
    {
      hide Pool.Valid, Apart, Distinct;
      assert a.count > 0 by { SizePositive(); }
      var table := FillGrown(a);
      PointersDistinct(a);
      forall p | p in Pointers(a)
        ensures p !in pool.all
      {
        NewBlock(arenas, a, p);
      }
      pool.Grow(table[..]);
      MoreBlocks(arenas, a);
      arenas := arenas + [a];
    }

    lemma SizePositive()
      requires pool.Valid()
      ensures pool.size > 0
    {
    }

    /** A block that is handed out has no byte in common with any other that is outstanding. */
    method Allocate(ghost page: nat) returns (block: nat)
      requires Valid() && pool.free != []
      modifies pool
      ensures Valid() && arenas == old(arenas)
      ensures forall q :: q in old(pool.out) ==> BlocksApart(block, q)
    {
      hide Pool.Valid, IsBlock, AllApart, BlocksApart;
      OutAreBlocks();
      block := pool.Allocate(page);
      forall q | q in old(pool.out)
        ensures BlocksApart(block, q)
      {
        BlocksNeverOverlap(arenas, block, q);
      }
    }

    /** A block comes back; which blocks there are does not change. */
    method Withdraw(block: nat, ghost page: nat)
      requires Valid() && page in pool.held && pool.held[page] != []
      requires pool.held[page][|pool.held[page]| - 1] == block
      modifies pool, pool.table
      ensures Valid() && arenas == old(arenas)
      ensures pool.out == old(pool.out) - {block} && pool.free == old(pool.free) + [block]
    {
      hide Pool.Valid, IsBlock, AllApart;
      pool.Withdraw(block, page);
    }

    /** Whatever has been allocated, withdrawn and grown before: no two outstanding blocks have a byte in
        common, nor has an outstanding one with a free one. */
    lemma NoOverlap(p: nat, q: nat)
      requires Valid() && p in pool.out && p != q && (q in pool.out || q in pool.free)
      ensures BlocksApart(p, q)
    {
      OutAreBlocks();
      hide Pool.Valid, IsBlock, AllApart, BlocksApart;
      BlocksNeverOverlap(arenas, p, q);
    }

    lemma OutAreBlocks()
      requires pool.Valid()
      ensures pool.out <= pool.all && forall q :: q in pool.free ==> q in pool.all
    {
    }
  }

  /** A block of a new arena is in none of the others. */
  lemma NewBlock(arenas: seq<Arena>, a: Arena, p: nat)
    requires (forall i :: 0 <= i < |arenas| ==> Apart(arenas[i], a)) && p in Pointers(a)
    ensures !IsBlock(arenas, p)
  {
    hide Apart, Pointers;
    if i :| 0 <= i < |arenas| && p in Pointers(arenas[i]) {
      InTwoArenas(arenas[i], a, p, p);
    }
  }

  lemma MoreBlocks(arenas: seq<Arena>, a: Arena)
    ensures forall p :: IsBlock(arenas + [a], p) <==> IsBlock(arenas, p) || p in Pointers(a)
  {
    hide Pointers;
    forall p
      ensures IsBlock(arenas + [a], p) <==> IsBlock(arenas, p) || p in Pointers(a)
    {
      if p in Pointers(a) {
        assert p in Pointers((arenas + [a])[|arenas|]);
      }
      if i :| 0 <= i < |arenas| && p in Pointers(arenas[i]) {
        assert p in Pointers((arenas + [a])[i]);
      }
    }
  }
}
