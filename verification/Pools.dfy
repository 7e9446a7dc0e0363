/** The free-list pools behind the trace index: a pointer table filled from one malloc'ed arena,
    handed out from its top, and doubled with a second arena when it runs empty.

    malloc itself is not modelled: the caller passes the new arena as the sequence of the pointers
    that stride through it. */
module Pools {
  import opened Ledger

  const POINTER_BYTES := 8

  lemma DoubledBytes(size: nat, bytes: nat)
    ensures size * (bytes + POINTER_BYTES) + (bytes * size + POINTER_BYTES * size)
         == (size + size) * (bytes + POINTER_BYTES)
  {
  }

  lemma DistinctAppend<T>(s: seq<T>, t: seq<T>)
    requires Distinct(s) && Distinct(t) && forall p :: p in t ==> p !in s
    ensures Distinct(s + t)
  {
    assert forall i :: 0 <= i < |t| ==> t[i] in t;
  }

  class Pool<T> {
    var table: array<T>
    var idx: nat
    var size: nat
    var allocSize: nat
    const elementBytes: nat
    /** The pointers that can be handed out, next one last. */
    ghost var free: seq<T>
    /** The pointers handed out and not yet given back. */
    ghost var out: set<T>
    /** Every pointer of every arena. */
    ghost var all: set<T>
    /** What each page has drawn. */
    ghost var held: Holdings<T>

    ghost predicate Valid()
      reads this, table
    {
      Sound() && Accounts(held, out, {})
    }

    ghost predicate Sound()
      reads this, table
    {
      && idx <= size <= table.Length && size > 0
      && free == table[..idx]
      && |out| + |free| == size
      && Distinct(free)
      && (forall p :: p in free ==> p !in out)
      && out <= all && (forall p :: p in free ==> p in all)
      && allocSize == size * (elementBytes + POINTER_BYTES)
    }

    /** Outstanding pointers are as many as the pages have drawn, and none of them is free. */
    lemma OutIsCounted()
      requires Valid()
      ensures |out| == Sum(Lengths(held)) && |free| == size - |out|
      ensures forall x :: x in free ==> x !in out
    {
      CountHeld(held, out);
    }

    lemma OutIsHeld(x: T)
      requires Valid() && x in out
      ensures Held(held, x)
    {
    }

    /** One pool of initMemory. */
    constructor (arena: seq<T>, bytes: nat)
      requires |arena| > 0 && Distinct(arena)
      ensures Valid() && fresh(table) && elementBytes == bytes
      ensures free == arena && size == |arena| && out == {} && held == map[]
      ensures all == set x | x in arena
    {
      elementBytes := bytes;
      size := |arena|;
      allocSize := bytes * |arena| + POINTER_BYTES * |arena|;
      table := new T[|arena|](_ => arena[0]);
      idx := |arena|;
      free, out, all, held := arena, {}, set x | x in arena, map[];
      new;
      for i := 0 to size
        modifies table
        invariant forall k :: 0 <= k < i ==> table[k] == arena[k]
      {
        table[i] := arena[i];
      }
      assert table[..idx] == arena;
      assert allocSize == size * (elementBytes + POINTER_BYTES);
    }

    /** The table of twice the size: memcpy of the free pointers, then the fill loop. */
    method Depot(arena: seq<T>) returns (depot: array<T>)
      requires Sound() && |arena| == size
      ensures fresh(depot) && depot.Length == 2 * size
      ensures depot[..idx + size] == free + arena
    {
      depot := new T[size * 2](_ => arena[0]);
      forall k | 0 <= k < idx {
        depot[k] := table[k];
      }
      depot[idx] := arena[0];
      for i := idx + 1 to idx + size
        modifies depot
        invariant forall k :: 0 <= k < i ==> depot[k] == (free + arena)[k]
      {
        depot[i] := arena[i - idx];
      }
    }

    /** The growth branch of the allocators: the old free pointers are kept, the new arena's
        pointers come behind them. */
    method Grow(arena: seq<T>)
      requires Valid() && |arena| == size && Distinct(arena)
      requires forall x :: x in arena ==> x !in all
      modifies `table, `idx, `size, `allocSize, `free, `all
      ensures Valid() && fresh(table)
      ensures free == old(free) + arena
      ensures size == 2 * old(size) && all == old(all) + set x | x in arena
    {
      var depot := Depot(arena);
      DoubledBytes(size, elementBytes);
      DistinctAppend(free, arena);
      allocSize := allocSize + (elementBytes * size + POINTER_BYTES * size);
      table := depot;
      idx := idx + size;
      size := size + size;
      free := free + arena;
      all := all + set x | x in arena;
    }

    /** Hand out the top pointer, to page p. */
    method Allocate(ghost p: nat) returns (x: T)
      requires Valid() && free != []
      modifies `idx, `free, `out, `held
      ensures Valid()
      ensures old(free) == free + [x]
      ensures x !in old(out) && out == old(out) + {x} && x in all
      ensures held == Drawn(old(held), p, x)
    {
      hide Accounts;
      ghost var top := free[|free| - 1];
      Allocated(held, out, {}, top);
      Attached(held, out + {top}, {} + {top}, p, top);
      assert {} + {top} - {top} == {};
      idx := idx - 1;
      x := table[idx];
      assert x == free[idx];
      free := free[..idx];
      out := out + {x};
      held := Drawn(held, p, x);
    }

    /** Take the newest pointer of page p back; the table has room whenever the pointer is really
        outstanding. */
    method Withdraw(x: T, ghost p: nat)
      requires Valid() && p in held && held[p] != [] && held[p][|held[p]| - 1] == x
      modifies `idx, `free, `out, `held, table
      ensures Valid()
      ensures free == old(free) + [x]
      ensures x in old(out) && out == old(out) - {x}
      ensures held == old(held)[p := old(held)[p][..|old(held)[p]| - 1]]
    {
      hide Accounts;
      NewestIsOut(held, out, {}, p);
      Detached(held, out, {}, p);
      Withdrawn(held[p := held[p][..|held[p]| - 1]], out, {} + {x}, x);
      assert {} + {x} - {x} == {};
      assert |out - {x}| == |out| - 1;
      assert idx < size;
      table[idx] := x;
      idx := idx + 1;
      free := free + [x];
      out := out - {x};
      held := held[p := held[p][..|held[p]| - 1]];
    }
  }
}
