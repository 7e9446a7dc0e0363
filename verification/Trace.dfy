/** The trace index of the default build with the pools it draws from: insertRec, writeRec and
    addTreeNode. The page tree is keyed by page number, so it is kept as a map. */
module Trace {
  import opened Addr
  import opened Chain
  import opened Ledger
  import opened Pools
  import opened TraceSpec

  const RECTREENODEPOOLSIZE := 8000
  const RECARRPOOLSIZE := 6000
  const RECTREENODETHRESHOLD := 4800

  const MEMREC_BYTES := 24
  const RECTREENODE_BYTES := 32
  const TAILHEAD_BYTES := 16
  const RECBLOCKENTRY_BYTES := 24

  // ---- malloc ---------------------------------------------------------------------------

  method MallocNodes(n: nat) returns (arena: seq<RecTreeNode>)
    ensures |arena| == n && Distinct(arena) && forall x :: x in arena ==> fresh(x)
  {
    arena := [];
    for i := 0 to n
      invariant |arena| == i && Distinct(arena) && forall x :: x in arena ==> fresh(x)
    {
      var x := new RecTreeNode();
      arena := arena + [x];
    }
  }

  method MallocHeads(n: nat) returns (arena: seq<TailHead>)
    ensures |arena| == n && Distinct(arena) && forall x :: x in arena ==> fresh(x)
  {
    arena := [];
    for i := 0 to n
      invariant |arena| == i && Distinct(arena) && forall x :: x in arena ==> fresh(x)
    {
      var x := new TailHead();
      arena := arena + [x];
    }
  }

  method MallocEntries(n: nat) returns (arena: seq<RecBlockEntry>)
    ensures |arena| == n && Distinct(arena) && forall x :: x in arena ==> fresh(x)
  {
    arena := [];
    for i := 0 to n
      invariant |arena| == i && Distinct(arena) && forall x :: x in arena ==> fresh(x)
    {
      var x := new RecBlockEntry();
      arena := arena + [x];
    }
  }

  method MallocRecArrs(n: nat) returns (arena: seq<array<MemRec>>)
    ensures |arena| == n && Distinct(arena)
    ensures forall x :: x in arena ==> fresh(x) && x.Length == MEMRECPERENTRY
  {
    arena := [];
    for i := 0 to n
      invariant |arena| == i && Distinct(arena)
      invariant forall x :: x in arena ==> fresh(x) && x.Length == MEMRECPERENTRY
    {
      var x := new MemRec[MEMRECPERENTRY](_ => MemRec(0, 0, 0, 0));
      arena := arena + [x];
    }
  }

  // ---- initMemory, one pool at a time -------------------------------------------------------

  method NewNodePool() returns (pool: Pool<RecTreeNode>, ghost parts: set<object>)
    ensures pool.Valid() && pool.held == map[] && |pool.free| == RECTREENODEPOOLSIZE
    ensures pool.elementBytes == 32 && pool.size == 8000
    ensures pool in parts && pool.table in parts && pool.all <= parts && fresh(parts)
  {
    var arena := MallocNodes(RECTREENODEPOOLSIZE);
    pool := new Pool(arena, RECTREENODE_BYTES);
    parts := {pool, pool.table} + pool.all;
  }

  method NewHeadPool() returns (pool: Pool<TailHead>, ghost parts: set<object>)
    ensures pool.Valid() && pool.held == map[] && |pool.free| == RECTREENODEPOOLSIZE
    ensures pool.elementBytes == 16 && pool.size == 8000
    ensures pool in parts && pool.table in parts && pool.all <= parts && fresh(parts)
  {
    var arena := MallocHeads(RECTREENODEPOOLSIZE);
    pool := new Pool(arena, TAILHEAD_BYTES);
    parts := {pool, pool.table} + pool.all;
  }

  method NewEntryPool() returns (pool: Pool<RecBlockEntry>, ghost parts: set<object>)
    ensures pool.Valid() && pool.held == map[] && |pool.free| == RECARRPOOLSIZE
    ensures pool.elementBytes == 24 && pool.size == 6000
    ensures pool in parts && pool.table in parts && pool.all <= parts && fresh(parts)
  {
    var arena := MallocEntries(RECARRPOOLSIZE);
    pool := new Pool(arena, RECBLOCKENTRY_BYTES);
    parts := {pool, pool.table} + pool.all;
  }

  method NewArrPool() returns (pool: Pool<array<MemRec>>, ghost parts: set<object>)
    ensures pool.Valid() && pool.held == map[] && |pool.free| == RECARRPOOLSIZE && FullLength(pool.all)
    ensures pool.elementBytes == 24 * 38 && pool.size == 6000
    ensures pool in parts && pool.table in parts && pool.all <= parts && fresh(parts)
  {
    var arena := MallocRecArrs(RECARRPOOLSIZE);
    pool := new Pool(arena, MEMREC_BYTES * MEMRECPERENTRY);
    parts := {pool, pool.table} + pool.all;
  }

  // ---- The allocators: grow when empty, then hand out the top pointer --------------------------

  method AllocateRecTreeNode(pool: Pool<RecTreeNode>, ghost p: nat) returns (node: RecTreeNode)
    requires pool.Valid() && pool.free != []
    modifies pool
    ensures pool.Valid() && pool.table == old(pool.table) && pool.all == old(pool.all)
    ensures node in pool.all && node !in old(pool.out) && pool.held == Drawn(old(pool.held), p, node)
    ensures |pool.free| == old(|pool.free|) - 1 && pool.size == old(pool.size)
  {
    node := pool.Allocate(p);
  }

  method AllocateTailHead(pool: Pool<TailHead>, ghost p: nat) returns (head: TailHead)
    requires pool.Valid()
    modifies pool
    ensures pool.Valid() && (pool.table == old(pool.table) || fresh(pool.table))
    ensures old(pool.all) <= pool.all && fresh(pool.all - old(pool.all))
    ensures head in pool.all && head !in old(pool.out) && pool.held == Drawn(old(pool.held), p, head)
  {
    if pool.idx <= 0 {
      var arena := MallocHeads(pool.size);
      pool.Grow(arena);
    }
    head := pool.Allocate(p);
  }

  method AllocateRecBlockEntry(pool: Pool<RecBlockEntry>, ghost p: nat) returns (ent: RecBlockEntry)
    requires pool.Valid()
    modifies pool
    ensures pool.Valid() && (pool.table == old(pool.table) || fresh(pool.table))
    ensures old(pool.all) <= pool.all && fresh(pool.all - old(pool.all))
    ensures ent in pool.all && ent !in old(pool.out) && pool.held == Drawn(old(pool.held), p, ent)
  {
    if pool.idx <= 0 {
      var arena := MallocEntries(pool.size);
      pool.Grow(arena);
    }
    ent := pool.Allocate(p);
  }

  method AllocateMemRecArr(pool: Pool<array<MemRec>>, ghost p: nat) returns (arr: array<MemRec>)
    requires pool.Valid() && FullLength(pool.all)
    modifies pool
    ensures pool.Valid() && (pool.table == old(pool.table) || fresh(pool.table)) && FullLength(pool.all)
    ensures old(pool.all) <= pool.all && fresh(pool.all - old(pool.all))
    ensures arr in pool.all && arr !in old(pool.out) && pool.held == Drawn(old(pool.held), p, arr)
  {
    if pool.idx <= 0 {
      var arena := MallocRecArrs(pool.size);
      pool.Grow(arena);
    }
    arr := pool.Allocate(p);
  }

  ghost predicate FullLength(arrs: set<array<MemRec>>) {
    forall a :: a in arrs ==> a.Length == MEMRECPERENTRY
  }

  /** A linked page whose blocks are on the pools' accounts. */
  ghost predicate InUse(node: RecTreeNode, p: nat, entryPool: Pool<RecBlockEntry>, arrPool: Pool<array<MemRec>>)
    reads node, node.listHead, node.chain, entryPool, entryPool.table, arrPool, arrPool.table
  {
    && node.Linked() && entryPool.Valid() && arrPool.Valid()
    && p in entryPool.held && entryPool.held[p] == node.chain
    && p in arrPool.held && arrPool.held[p] == node.arrs
  }

  lemma HeadInUse(node: RecTreeNode, p: nat, entryPool: Pool<RecBlockEntry>, arrPool: Pool<array<MemRec>>)
    requires InUse(node, p, entryPool, arrPool)
    ensures node.listHead != null && |node.chain| == |node.arrs| >= 1
    ensures node.listHead.first == node.chain[|node.chain| - 1]
    ensures node.listHead.first.next == if |node.chain| == 1 then null else node.chain[|node.chain| - 2]
  {
    node.HeadOfQueue();
  }

  lemma OwnEntry(node: RecTreeNode, p: nat, entryPool: Pool<RecBlockEntry>, arrPool: Pool<array<MemRec>>)
    requires InUse(node, p, entryPool, arrPool)
    ensures entryPool.held == entryPool.held[p := node.chain] && arrPool.held == arrPool.held[p := node.arrs]
  {
  }

  /** The body of the TAILQ_FOREACH that empties a chain: one block back to the pools. */
  method DropFirst(node: RecTreeNode, ghost p: nat, entryPool: Pool<RecBlockEntry>, arrPool: Pool<array<MemRec>>)
    requires InUse(node, p, entryPool, arrPool) && |node.chain| > 1
    modifies node`chain, node`arrs, node.listHead, node.chain
    modifies entryPool`idx, entryPool`free, entryPool`out, entryPool`held, entryPool.table
    modifies arrPool`idx, arrPool`free, arrPool`out, arrPool`held, arrPool.table
    ensures InUse(node, p, entryPool, arrPool)
    ensures node.chain == old(node.chain)[..|old(node.chain)| - 1]
    ensures node.arrs == old(node.arrs)[..|old(node.arrs)| - 1]
    ensures entryPool.held == old(entryPool.held)[p := node.chain]
    ensures arrPool.held == old(arrPool.held)[p := node.arrs]
  {
    hide Pool.Valid, Distinct;
    var ent := node.listHead.first;
    var recArr: array<MemRec> := ent.recArr;
    assert recArr == node.arrs[|node.arrs| - 1];
    hide RecTreeNode.Linked;
    arrPool.Withdraw(recArr, p);
    node.RemoveFirst();
    entryPool.Withdraw(ent, p);
  }

  /** The TAILQ_FOREACH of the reset: every block but the oldest goes back to the pools. */
  method DropAllButOldest(node: RecTreeNode, ghost p: nat, entryPool: Pool<RecBlockEntry>,
                          arrPool: Pool<array<MemRec>>)
    requires InUse(node, p, entryPool, arrPool)
    modifies node`chain, node`arrs, node.listHead, node.chain
    modifies entryPool`idx, entryPool`free, entryPool`out, entryPool`held, entryPool.table
    modifies arrPool`idx, arrPool`free, arrPool`out, arrPool`held, arrPool.table
    ensures InUse(node, p, entryPool, arrPool)
    ensures |old(node.chain)| >= 1 && node.chain == old(node.chain)[..1]
    ensures |old(node.arrs)| >= 1 && node.arrs == old(node.arrs)[..1]
    ensures entryPool.held == old(entryPool.held)[p := node.chain]
    ensures arrPool.held == old(arrPool.held)[p := node.arrs]
  {
    hide InUse, RecTreeNode.Linked, Pool.Valid;
    HeadInUse(node, p, entryPool, arrPool);
    OwnEntry(node, p, entryPool, arrPool);
    ghost var chain0, arrs0, entries0, held0 := node.chain, node.arrs, entryPool.held, arrPool.held;
    var ent := node.listHead.first;
    while ent != null
      invariant InUse(node, p, entryPool, arrPool)
      invariant 1 <= |node.chain| == |node.arrs|
      invariant node.chain <= chain0 && node.arrs <= arrs0
      invariant entryPool.held == entries0[p := node.chain]
      invariant arrPool.held == held0[p := node.arrs]
      invariant if ent == null then |node.chain| == 1 else ent == node.chain[|node.chain| - 1]
      decreases |node.chain|, ent != null
    {
      HeadInUse(node, p, entryPool, arrPool);
      var next := ent.next;
      if next != null {
        DropFirst(node, p, entryPool, arrPool);
      }
      ent := next;
    }
  }

  /** DELETE_TREENODE: the page starts over with its oldest block, empty. */
  method ResetChain(node: RecTreeNode, ghost p: nat, entryPool: Pool<RecBlockEntry>, arrPool: Pool<array<MemRec>>)
    requires InUse(node, p, entryPool, arrPool)
    modifies node`chain, node`arrs, node`recs, node`slots, node`recModEntry, node`memRecIdx, node.listHead, node.chain
    modifies entryPool`idx, entryPool`free, entryPool`out, entryPool`held, entryPool.table
    modifies arrPool`idx, arrPool`free, arrPool`out, arrPool`held, arrPool.table
    ensures node.Valid() && InUse(node, p, entryPool, arrPool)
    ensures node.recs == [] && node.memRecIdx == 0
    ensures |old(node.chain)| >= 1 && node.chain == old(node.chain)[..1]
    ensures |old(node.arrs)| >= 1 && node.arrs == old(node.arrs)[..1]
    ensures entryPool.held == old(entryPool.held)[p := node.chain]
    ensures arrPool.held == old(arrPool.held)[p := node.arrs]
  {
    hide Pool.Valid, RecTreeNode.Linked, RecTreeNode.Valid;
    DropAllButOldest(node, p, entryPool, arrPool);
    node.Restart();
    assert node.Linked() by { node.ValidIsLinked(); }
  }

  ghost predicate ArrayHolds(arr: array<MemRec>, slots: seq<MemRec>)
    reads arr
  {
    |slots| <= arr.Length == MEMRECPERENTRY && forall j :: 0 <= j < |slots| ==> arr[j] == slots[j]
  }

  /** What a tree node refers to. */
  datatype PageState = PageState(node: RecTreeNode, head: TailHead?, chain: seq<RecBlockEntry>,
                       arrs: seq<array<MemRec>>, recs: seq<MemRec>, slots: seq<MemRec>)

  /** So many free nodes are enough for all of these pages to become traced. */
  ghost predicate Enough(free: nat, keys: set<nat>, pages: set<nat>) {
    pages <= keys || free + 1 >= RECTREENODETHRESHOLD + |pages - keys|
  }

  /** Tracing one of the pages leaves enough for the others. */
  lemma EnoughKept(free: nat, v: View, free': nat, v': View, pages: set<nat>, p: nat)
    requires Enough(free, v.Keys, pages) && p in pages && v'.Keys == v.Keys + {p}
    requires free' + |v'| == free + |v|
    ensures Enough(free', v'.Keys, pages)
  {
    assert |v.Keys| == |v| && |v'.Keys| == |v'|;
    KeysKept(free, v.Keys, free', pages, p);
  }

  lemma EnoughForFewer(free: nat, keys: set<nat>, pages: set<nat>, fewer: set<nat>)
    requires Enough(free, keys, pages) && fewer <= pages
    ensures Enough(free, keys, fewer)
  {
    if !(pages <= keys) && !(fewer <= keys) {
      var rest := pages - keys - (fewer - keys);
      assert pages - keys == (fewer - keys) + rest;
    }
  }

  lemma KeysKept(free: nat, keys: set<nat>, free': nat, pages: set<nat>, p: nat)
    requires Enough(free, keys, pages) && p in pages && free' + |keys + {p}| == free + |keys|
    ensures Enough(free', keys + {p}, pages)
  {
    if p in keys {
      assert keys + {p} == keys;
    } else {
      assert pages - keys == (pages - (keys + {p})) + {p};
      assert |keys + {p}| == |keys| + 1;
    }
  }

  // ---- The traced pages on the heap ------------------------------------------------------------

  class Index {
    var recTree: map<nat, RecTreeNode>
    const nodePool: Pool<RecTreeNode>
    const headPool: Pool<TailHead>
    const entryPool: Pool<RecBlockEntry>
    const arrPool: Pool<array<MemRec>>
    /** Everything a call may touch. */
    ghost var Repr: set<object>

    /** Every traced page hangs together. */
    ghost predicate PagesOk(objs: set<object>)
      reads `recTree, objs
    {
      forall p :: p in recTree ==>
        recTree[p] in objs && recTree[p].Within(objs) && recTree[p].pageNum == p && recTree[p].Valid()
    }

    /** Two pages have nothing in common. */
    ghost predicate NothingShared(n: RecTreeNode, m: RecTreeNode)
      reads n, m
    {
      && n != m && n.listHead != m.listHead
      && (forall e :: e in n.chain ==> e !in m.chain) && (forall a :: a in n.arrs ==> a !in m.arrs)
    }

    ghost predicate StandsApart(p: nat, n: RecTreeNode)
      reads `recTree, n, recTree.Values
    {
      forall q :: q in recTree && q != p ==> NothingShared(n, recTree[q])
    }

    ghost predicate NewEntry(x: RecBlockEntry)
      reads `recTree, recTree.Values
    {
      forall q :: q in recTree ==> x !in recTree[q].chain
    }

    ghost predicate NewArray(x: array<MemRec>)
      reads `recTree, recTree.Values
    {
      forall q :: q in recTree ==> x !in recTree[q].arrs
    }

    ghost predicate NewHead(x: TailHead)
      reads `recTree, recTree.Values
    {
      forall q :: q in recTree ==> x != recTree[q].listHead
    }

    /** All pages but p. */
    ghost function Others(p: nat): map<nat, PageState>
      reads `recTree, (set q | q in recTree && q != p :: recTree[q])
    {
      map q | q in recTree && q != p ::
        var n := recTree[q]; PageState(n, n.listHead, n.chain, n.arrs, n.recs, n.slots)
    }

    /** The pages whose nodes are in kept are sound, and have all their parts there. */
    ghost predicate SoundWithin(kept: set<object>)
      reads `recTree, kept
    {
      forall q :: q in recTree && recTree[q] in kept ==>
        recTree[q].Within(kept) && recTree[q].pageNum == q && recTree[q].Valid()
    }

    /** Only the node of page p is not in kept. */
    ghost predicate OthersIn(p: nat, kept: set<object>)
      reads `recTree
    {
      forall q :: q in recTree && q != p ==> recTree[q] in kept
    }

    /** The pages of which nothing was written are as they were. */
    twostate lemma PagesUntouched(kept: set<object>)
      requires unchanged(kept) && recTree == old(recTree) && old(SoundWithin(kept))
      ensures SoundWithin(kept)
    {
      hide RecTreeNode.Valid, RecTreeNode.Within;
      forall q | q in recTree && recTree[q] in kept
        ensures recTree[q].Within(kept) && recTree[q].pageNum == q && recTree[q].Valid()
      {
        recTree[q].Untouched(kept);
      }
    }

    /** All pages are sound when the others are and page p is. */
    lemma AllPagesOk(p: nat, kept: set<object>, objs: set<object>)
      requires SoundWithin(kept) && OthersIn(p, kept) && kept <= objs
      requires p in recTree ==> recTree[p].Within(objs) && recTree[p].pageNum == p && recTree[p].Valid()
      ensures PagesOk(objs)
    {
      hide RecTreeNode.Valid;
    }

    lemma AppendSpares(p: nat, arr: array<MemRec>, objs: set<object>)
      requires PagesOk(objs) && p in recTree && StandsApart(p, recTree[p]) && arr in recTree[p].arrs
      ensures SoundWithin(objs - {recTree[p], arr}) && OthersIn(p, objs - {recTree[p], arr})
      ensures recTree[p].Within(objs) && recTree[p].pageNum == p
    {
      hide RecTreeNode.Valid;
    }

    /** writeRec, room in the current block: only page p changes. */
    method AppendToPage(p: nat, node: RecTreeNode, rec: MemRec, ghost objs: set<object>)
      requires PagesOk(objs) && p in recTree && recTree[p] == node && node.memRecIdx < MEMRECPERENTRY
      requires StandsApart(p, node)
      modifies node`memRecIdx, node`recs, node`slots, node.recModEntry.recArr
      ensures Others(p) == old(Others(p))
      ensures PagesOk(objs)
      ensures node.recs == old(node.recs) + [rec]
    {
      ghost var arr := node.BlockArray();
      hide Others, RecTreeNode.Valid, PagesOk, SoundWithin, OthersIn;
      ghost var kept := objs - {node, arr};
      AppendSpares(p, arr, objs);
      node.Append(rec);
      assert unchanged(kept);
      PagesUntouched(kept);
      AllPagesOk(p, kept, objs);
    }

    lemma PushSpares(p: nat, ent: RecBlockEntry, arr: array<MemRec>, objs: set<object>)
      requires PagesOk(objs) && p in recTree && StandsApart(p, recTree[p]) && NewEntry(ent) && NewArray(arr)
      requires recTree[p].recModEntry in recTree[p].chain
      ensures recTree[p].Within(objs) && recTree[p].pageNum == p
      ensures var n := recTree[p];
        var kept := objs - {n, n.listHead, ent, arr, n.recModEntry};
        SoundWithin(kept) && OthersIn(p, kept)
    {
      hide RecTreeNode.Valid;
    }

    /** writeRec, block full: page p gets a block that no page has. */
    method PushToPage(p: nat, node: RecTreeNode, ent: RecBlockEntry, arr: array<MemRec>, rec: MemRec,
                      ghost objs: set<object>)
      requires PagesOk(objs) && p in recTree && recTree[p] == node && node.memRecIdx == MEMRECPERENTRY
      requires StandsApart(p, node) && NewEntry(ent) && NewArray(arr)
      requires ent in objs && arr in objs && arr.Length == MEMRECPERENTRY
      modifies node, node.listHead, ent, arr, node.recModEntry
      ensures Others(p) == old(Others(p))
      ensures PagesOk(objs)
      ensures node.recs == old(node.recs) + [rec] && node.listHead == old(node.listHead)
      ensures node.chain == old(node.chain) + [ent] && node.arrs == old(node.arrs) + [arr]
    {
      assert node.recModEntry in node.chain;
      hide Others, RecTreeNode.Valid, PagesOk, SoundWithin, OthersIn;
      ghost var kept := objs - {node, node.listHead, ent, arr, node.recModEntry};
      PushSpares(p, ent, arr, objs);
      node.PushBlock(ent, arr, rec);
      assert unchanged(kept);
      PagesUntouched(kept);
      AllPagesOk(p, kept, objs);
    }

    /** A step that writes to the pools of blocks leaves the others as they were. */
    twostate lemma BlockPoolsWritten(p: nat)
      requires old(PoolsOk()) && unchanged(nodePool) && unchanged(headPool)
      requires unchanged(nodePool.table) && unchanged(headPool.table) && unchanged(arrPool`all)
      requires p in recTree && InUse(recTree[p], p, entryPool, arrPool)
      ensures PoolsOk()
    {
      hide Pool.Valid, RecTreeNode.Linked;
    }

    lemma ResetSpares(p: nat, objs: set<object>)
      requires PagesOk(objs) && p in recTree && StandsApart(p, recTree[p])
      ensures recTree[p].Within(objs) && recTree[p].pageNum == p
      ensures var n := recTree[p];
        var kept := objs - {n, n.listHead} - (set e | e in n.chain)
                         - {entryPool, entryPool.table, arrPool, arrPool.table};
        SoundWithin(kept) && OthersIn(p, kept)
    {
      hide RecTreeNode.Valid;
    }

    /** The reset of DELETE_TREENODE: only page p changes. */
    method ResetOfPage(p: nat, node: RecTreeNode, ghost objs: set<object>)
      requires PagesOk(objs) && p in recTree && recTree[p] == node && PoolsOk()
      requires StandsApart(p, node) && InUse(node, p, entryPool, arrPool)
      modifies node`chain, node`arrs, node`recs, node`slots, node`recModEntry, node`memRecIdx, node.listHead, node.chain
      modifies entryPool`idx, entryPool`free, entryPool`out, entryPool`held, entryPool.table
      modifies arrPool`idx, arrPool`free, arrPool`out, arrPool`held, arrPool.table
      ensures Others(p) == old(Others(p))
      ensures PagesOk(objs) && InUse(node, p, entryPool, arrPool) && PoolsOk()
      ensures node.recs == [] && node.memRecIdx == 0
      ensures entryPool.held == old(entryPool.held)[p := node.chain]
      ensures arrPool.held == old(arrPool.held)[p := node.arrs]
    {
      hide PoolsOk, Others, RecTreeNode.Valid, RecTreeNode.Linked, InUse, Pool.Valid, PagesOk, SoundWithin, OthersIn;
      ghost var kept := objs - {node, node.listHead} - (set e | e in node.chain)
                             - {entryPool, entryPool.table, arrPool, arrPool.table};
      ResetSpares(p, objs);
      ResetChain(node, p, entryPool, arrPool);
      assert unchanged(kept);
      PagesUntouched(kept);
      AllPagesOk(p, kept, objs);
      BlockPoolsWritten(p);
    }

    lemma InitSpares(node: RecTreeNode, head: TailHead, ent: RecBlockEntry, objs: set<object>)
      requires PagesOk(objs) && node !in recTree.Values && NewHead(head) && NewEntry(ent)
      ensures SoundWithin(objs - {node, head, ent})
      ensures forall q :: q in recTree ==> recTree[q] in objs - {node, head, ent}
    {
      hide RecTreeNode.Valid;
    }

    /** addTreeNode: a new page from unused objects. */
    method InitPage(p: nat, node: RecTreeNode, head: TailHead, ent: RecBlockEntry, arr: array<MemRec>,
                    ghost objs: set<object>)
      requires PagesOk(objs) && p !in recTree && node !in recTree.Values
      requires NewHead(head) && NewEntry(ent) && NewArray(arr)
      requires node in objs && head in objs && ent in objs && arr in objs && arr.Length == MEMRECPERENTRY
      modifies `recTree, node, head, ent
      ensures Others(p) == old(Others(p))
      ensures PagesOk(objs) && recTree == old(recTree)[p := node]
      ensures node.recs == [] && node.memRecIdx == 0 && node.listHead == head
      ensures node.chain == [ent] && node.arrs == [arr]
    {
      hide RecTreeNode.Valid, PagesOk;
      ghost var kept := objs - {node, head, ent};
      InitSpares(node, head, ent, objs);
      node.Init(p, head, ent, arr);
      assert unchanged(kept);
      PagesUntouched(kept);
      recTree := recTree[p := node];
      AllPagesOk(p, kept, objs);
    }

    // ---- The whole index: pages and pools together ----------------------------------------------

    ghost predicate PoolsOk()
      reads nodePool, nodePool.table, headPool, headPool.table
      reads entryPool, entryPool.table, arrPool, arrPool.table
    {
      nodePool.Valid() && headPool.Valid() && entryPool.Valid() && arrPool.Valid() && FullLength(arrPool.all)
    }

    /** Page p holds what its node says. */
    ghost predicate Mirrors(p: nat, n: RecTreeNode, nh: Holdings<RecTreeNode>, hh: Holdings<TailHead>,
                           ch: Holdings<RecBlockEntry>, ah: Holdings<array<MemRec>>)
      reads n`listHead, n`chain, n`arrs
    {
      && p in nh && nh[p] == [n]
      && n.listHead != null && p in hh && hh[p] == [n.listHead]
      && p in ch && ch[p] == n.chain
      && p in ah && ah[p] == n.arrs
    }

    /** The accounts are right for every page but p. */
    ghost predicate MirrorsExcept(p: nat, nh: Holdings<RecTreeNode>, hh: Holdings<TailHead>,
                           ch: Holdings<RecBlockEntry>, ah: Holdings<array<MemRec>>)
      reads `recTree, (set q | q in recTree && q != p :: recTree[q])
    {
      && nh.Keys + {p} == recTree.Keys + {p} && hh.Keys + {p} == recTree.Keys + {p}
      && ch.Keys + {p} == recTree.Keys + {p} && ah.Keys + {p} == recTree.Keys + {p}
      && forall q :: q in recTree && q != p ==> Mirrors(q, recTree[q], nh, hh, ch, ah)
    }

    ghost predicate MirrorsOk(nh: Holdings<RecTreeNode>, hh: Holdings<TailHead>,
                           ch: Holdings<RecBlockEntry>, ah: Holdings<array<MemRec>>)
      reads `recTree, recTree.Values`listHead, recTree.Values`chain, recTree.Values`arrs
    {
      && nh.Keys == recTree.Keys && hh.Keys == recTree.Keys
      && ch.Keys == recTree.Keys && ah.Keys == recTree.Keys
      && forall p :: p in recTree ==> Mirrors(p, recTree[p], nh, hh, ch, ah)
    }

    /** Everything the pools ever got from malloc. */
    ghost function Objects(): set<object>
      reads nodePool, headPool, entryPool, arrPool
    {
      nodePool.all + headPool.all + entryPool.all + arrPool.all
    }

    /** Repr has it all. */
    ghost predicate Supply()
      reads `Repr, nodePool, headPool, entryPool, arrPool
    {
      && {nodePool, headPool, entryPool, arrPool} <= Repr
      && {nodePool.table, headPool.table, entryPool.table, arrPool.table} <= Repr
      && nodePool.all <= Repr && headPool.all <= Repr && entryPool.all <= Repr && arrPool.all <= Repr
    }

    ghost predicate Valid()
      reads `recTree, `Repr, nodePool, nodePool.table, headPool, headPool.table
      reads entryPool, entryPool.table, arrPool, arrPool.table, Objects(), recTree.Values
    {
      && Supply() && PoolsOk()
      && MirrorsOk(nodePool.held, headPool.held, entryPool.held, arrPool.held) && PagesOk(Objects())
    }

    /** Before page p changes: the other pages are accounted for and share nothing with it. */
    lemma FocusOn(p: nat)
      requires PoolsOk() && MirrorsOk(nodePool.held, headPool.held, entryPool.held, arrPool.held)
      ensures MirrorsExcept(p, nodePool.held, headPool.held, entryPool.held, arrPool.held)
      ensures p in recTree ==> StandsApart(p, recTree[p])
      ensures forall q :: q in recTree && q != p ==> p !in recTree || recTree[q] != recTree[p]
    {
      forall q | q in recTree && q != p
        ensures p in recTree ==> recTree[q] != recTree[p] && NothingShared(recTree[p], recTree[q])
      {
        assert Mirrors(q, recTree[q], nodePool.held, headPool.held, entryPool.held, arrPool.held)
               && recTree[q] in nodePool.held[q] && recTree[q].listHead in headPool.held[q];
        if p in recTree {
          assert Mirrors(p, recTree[p], nodePool.held, headPool.held, entryPool.held, arrPool.held)
                 && recTree[p] in nodePool.held[p] && recTree[p].listHead in headPool.held[p];
        }
      }
    }

    /** After page p has changed. */
    lemma FocusOff(p: nat, nh: Holdings<RecTreeNode>, hh: Holdings<TailHead>,
                           ch: Holdings<RecBlockEntry>, ah: Holdings<array<MemRec>>)
      requires MirrorsExcept(p, nh, hh, ch, ah) && p in recTree && Mirrors(p, recTree[p], nh, hh, ch, ah)
      ensures MirrorsOk(nh, hh, ch, ah)
    {
    }

    /** What page p draws does not concern the others. */
    lemma DrawnElsewhere(p: nat, nh: Holdings<RecTreeNode>, hh: Holdings<TailHead>,
                           ch: Holdings<RecBlockEntry>, ah: Holdings<array<MemRec>>,
                           ent: RecBlockEntry, arr: array<MemRec>)
      requires MirrorsExcept(p, nh, hh, ch, ah)
      ensures MirrorsExcept(p, nh, hh, Drawn(ch, p, ent), Drawn(ah, p, arr))
    {
    }

    lemma MirrorsOf(p: nat)
      requires MirrorsOk(nodePool.held, headPool.held, entryPool.held, arrPool.held) && p in recTree
      ensures Mirrors(p, recTree[p], nodePool.held, headPool.held, entryPool.held, arrPool.held)
    {
    }

    lemma MirrorsBase(p: nat)
      requires MirrorsOk(nodePool.held, headPool.held, entryPool.held, arrPool.held) && p in recTree
      ensures p in nodePool.held && nodePool.held[p] == [recTree[p]] && recTree[p].listHead != null
      ensures p in headPool.held && headPool.held[p] == [recTree[p].listHead]
    {
      assert Mirrors(p, recTree[p], nodePool.held, headPool.held, entryPool.held, arrPool.held);
    }

    /** One page of many. */
    lemma PageOf(p: nat)
      requires PagesOk(Objects()) && p in recTree
      ensures recTree[p].Valid() && recTree[p].pageNum == p
      ensures recTree[p] in Objects() && recTree[p].listHead in Objects()
      ensures recTree[p].recModEntry in Objects() && recTree[p].BlockArray() in Objects()
    {
      assert recTree[p].recModEntry in recTree[p].chain;
    }

    /** What is on a page is outstanding, so an unused object is on no page. */
    ghost predicate HeadsOut()
      reads `recTree, recTree.Values, headPool
    {
      forall q :: q in recTree ==> recTree[q].listHead in headPool.out
    }

    ghost predicate NodesOut()
      reads `recTree, nodePool
    {
      forall q :: q in recTree ==> recTree[q] in nodePool.out
    }

    ghost predicate EntriesOut()
      reads `recTree, recTree.Values, entryPool
    {
      forall q, e :: q in recTree && e in recTree[q].chain ==> e in entryPool.out
    }

    ghost predicate ArraysOut()
      reads `recTree, recTree.Values, arrPool
    {
      forall q, a :: q in recTree && a in recTree[q].arrs ==> a in arrPool.out
    }

    lemma AllOut()
      requires PoolsOk() && MirrorsOk(nodePool.held, headPool.held, entryPool.held, arrPool.held)
      ensures NodesOut() && HeadsOut() && EntriesOut() && ArraysOut()
    {
      forall q | q in recTree
        ensures recTree[q] in nodePool.out && recTree[q].listHead in headPool.out
        ensures forall e :: e in recTree[q].chain ==> e in entryPool.out
        ensures forall a :: a in recTree[q].arrs ==> a in arrPool.out
      {
        assert Mirrors(q, recTree[q], nodePool.held, headPool.held, entryPool.held, arrPool.held);
        assert recTree[q] in nodePool.held[q] && recTree[q].listHead in headPool.held[q];
      }
    }

    lemma PagesOkGrows(objs: set<object>, objs': set<object>)
      requires PagesOk(objs) && objs <= objs'
      ensures PagesOk(objs')
    {
      hide RecTreeNode.Valid;
    }

    lemma ObjectsCover()
      ensures nodePool.all <= Objects() && headPool.all <= Objects()
      ensures entryPool.all <= Objects() && arrPool.all <= Objects()
    {
    }

    lemma BlocksCover()
      ensures forall e :: e in entryPool.all ==> e in Objects()
      ensures forall a :: a in arrPool.all ==> a in Objects()
    {
    }

    lemma BlockInObjects(ent: RecBlockEntry, arr: array<MemRec>)
      requires ent in entryPool.all && arr in arrPool.all
      ensures ent in Objects() && arr in Objects()
    {
    }

    lemma InObjects(node: RecTreeNode, head: TailHead, ent: RecBlockEntry, arr: array<MemRec>)
      requires node in nodePool.all && head in headPool.all && ent in entryPool.all && arr in arrPool.all
      ensures node in Objects() && head in Objects() && ent in Objects() && arr in Objects()
    {
    }

    lemma PoolsAreNoObjects()
      ensures this !in Objects() && nodePool !in Objects() && headPool !in Objects()
      ensures entryPool !in Objects() && arrPool !in Objects()
    {
    }

    /** A step that writes to pages only leaves the pools, and what they hold, as they were. */
    twostate lemma PoolsUntouched()
      requires unchanged(`Repr) && unchanged(nodePool) && unchanged(headPool)
      requires unchanged(entryPool) && unchanged(arrPool)
      requires unchanged(nodePool.table) && unchanged(headPool.table)
      requires unchanged(entryPool.table) && unchanged(arrPool.table)
      ensures Objects() == old(Objects()) && (old(PoolsOk()) ==> PoolsOk()) && (old(Supply()) ==> Supply())
    {
      hide Pool.Valid;
    }

    /** writeRec into the current block of page p. */
    method AppendTo(p: nat, node: RecTreeNode, rec: MemRec)
      requires Valid() && p in recTree && recTree[p] == node && node.memRecIdx < MEMRECPERENTRY
      modifies node`memRecIdx, node`recs, node`slots, node.recModEntry.recArr
      ensures PoolsOk() && MirrorsOk(nodePool.held, headPool.held, entryPool.held, arrPool.held) && PagesOk(Objects())
      ensures node.recs == old(node.recs) + [rec]
      ensures recTree == old(recTree) && Supply()
      ensures Others(p) == old(Others(p))
    {
      hide Others, Supply, PoolsOk, PagesOk, MirrorsExcept, MirrorsOk, StandsApart, Objects, RecTreeNode.Valid;
      FocusOn(p);
      PageOf(p);
      ghost var arr := node.BlockArray();
      AppendToPage(p, node, rec, Objects());
      PoolsUntouched();
    }

    /** A record array for page p. */
    method TakeArray(p: nat) returns (x: array<MemRec>)
      requires PoolsOk() && PagesOk(Objects()) && ArraysOut() && Supply()
      modifies arrPool, `Repr
      ensures PoolsOk() && PagesOk(Objects()) && NewArray(x)
      ensures Supply() && fresh(Repr - old(Repr))
      ensures (x in old(arrPool.all) || fresh(x)) && x in arrPool.all && x.Length == MEMRECPERENTRY
      ensures arrPool.held == Drawn(old(arrPool.held), p, x)
    {
      hide PagesOk, Pool.Valid;
      PoolsAreNoObjects();
      ghost var objs := Objects();
      x := AllocateMemRecArr(arrPool, p);
      Repr := Repr + arrPool.all + {arrPool.table};
      assert PagesOk(objs);
      PagesOkGrows(objs, Objects());
    }

    /** A block entry for page p. */
    method TakeEntry(p: nat) returns (x: RecBlockEntry)
      requires PoolsOk() && PagesOk(Objects()) && EntriesOut() && Supply()
      modifies entryPool, `Repr
      ensures PoolsOk() && PagesOk(Objects()) && NewEntry(x)
      ensures Supply() && fresh(Repr - old(Repr))
      ensures (x in old(entryPool.all) || fresh(x)) && x in entryPool.all
      ensures entryPool.held == Drawn(old(entryPool.held), p, x)
    {
      hide PagesOk, Pool.Valid;
      PoolsAreNoObjects();
      ghost var objs := Objects();
      x := AllocateRecBlockEntry(entryPool, p);
      Repr := Repr + entryPool.all + {entryPool.table};
      assert PagesOk(objs);
      PagesOkGrows(objs, Objects());
    }

    /** A list head for page p. */
    method TakeHead(p: nat) returns (x: TailHead)
      requires PoolsOk() && PagesOk(Objects()) && HeadsOut() && Supply()
      modifies headPool, `Repr
      ensures PoolsOk() && PagesOk(Objects()) && NewHead(x)
      ensures Supply() && fresh(Repr - old(Repr))
      ensures (x in old(headPool.all) || fresh(x)) && x in headPool.all
      ensures headPool.held == Drawn(old(headPool.held), p, x)
    {
      hide PagesOk, Pool.Valid;
      PoolsAreNoObjects();
      ghost var objs := Objects();
      x := AllocateTailHead(headPool, p);
      Repr := Repr + headPool.all + {headPool.table};
      assert PagesOk(objs);
      PagesOkGrows(objs, Objects());
    }

    /** A record array and an entry, for page p. */
    method TakeBlock(p: nat) returns (rbe: RecBlockEntry, recArr: array<MemRec>)
      requires PoolsOk() && PagesOk(Objects()) && ArraysOut() && EntriesOut() && Supply()
      modifies arrPool, entryPool, `Repr
      ensures PoolsOk() && PagesOk(Objects()) && NewArray(recArr) && NewEntry(rbe)
      ensures Supply() && fresh(Repr - old(Repr))
      ensures (rbe in old(entryPool.all) || fresh(rbe)) && (recArr in old(arrPool.all) || fresh(recArr))
      ensures rbe in entryPool.all && recArr in arrPool.all && recArr.Length == MEMRECPERENTRY
      ensures arrPool.held == Drawn(old(arrPool.held), p, recArr)
      ensures entryPool.held == Drawn(old(entryPool.held), p, rbe)
    {
      hide Supply, PoolsOk, PagesOk, Objects, NewEntry, NewArray, EntriesOut, ArraysOut;
      recArr := TakeArray(p);
      rbe := TakeEntry(p);
    }

    /** Page p's account once it has drawn the block that comes next. */
    ghost predicate Drew(p: nat, node: RecTreeNode, rbe: RecBlockEntry, recArr: array<MemRec>)
      reads `recTree, node, nodePool, headPool, entryPool, arrPool
    {
      && p in nodePool.held && nodePool.held[p] == [node]
      && node.listHead != null && p in headPool.held && headPool.held[p] == [node.listHead]
      && p in entryPool.held && entryPool.held[p] == node.chain + [rbe]
      && p in arrPool.held && arrPool.held[p] == node.arrs + [recArr]
    }

    lemma DrewBlock(p: nat, node: RecTreeNode, ch: Holdings<RecBlockEntry>, ah: Holdings<array<MemRec>>,
                    rbe: RecBlockEntry, recArr: array<MemRec>)
      requires Mirrors(p, node, nodePool.held, headPool.held, ch, ah)
      requires entryPool.held == Drawn(ch, p, rbe) && arrPool.held == Drawn(ah, p, recArr)
      ensures Drew(p, node, rbe, recArr)
    {
    }

    /** The block drawn becomes the head of page p's queue. */
    method AttachBlock(p: nat, node: RecTreeNode, rbe: RecBlockEntry, recArr: array<MemRec>, rec: MemRec)
      requires PoolsOk() && PagesOk(Objects())
      requires MirrorsExcept(p, nodePool.held, headPool.held, entryPool.held, arrPool.held)
      requires p in recTree && recTree[p] == node && node.memRecIdx == MEMRECPERENTRY && StandsApart(p, node)
      requires forall q :: q in recTree && q != p ==> recTree[q] != node
      requires NewEntry(rbe) && NewArray(recArr) && Drew(p, node, rbe, recArr) && Supply()
      requires rbe in entryPool.all && recArr in arrPool.all && recArr.Length == MEMRECPERENTRY
      modifies node, node.listHead, rbe, recArr, node.recModEntry
      ensures Others(p) == old(Others(p))
      ensures PoolsOk() && MirrorsOk(nodePool.held, headPool.held, entryPool.held, arrPool.held) && PagesOk(Objects())
      ensures Supply() && recTree == old(recTree)
      ensures node.recs == old(node.recs) + [rec]
    {
      hide Supply, Others, PoolsOk, PagesOk, MirrorsExcept, StandsApart, Objects, NewEntry, NewArray, RecTreeNode.Valid;
      BlockInObjects(rbe, recArr);
      PushToPage(p, node, rbe, recArr, rec, Objects());
      PoolsUntouched();
      FocusOff(p, nodePool.held, headPool.held, entryPool.held, arrPool.held);
    }

    /** What page p needs to know before it draws a block. */
    lemma DrawReady(p: nat)
      requires Valid() && p in recTree
      ensures PoolsOk() && PagesOk(Objects()) && Supply() && EntriesOut() && ArraysOut()
      ensures MirrorsExcept(p, nodePool.held, headPool.held, entryPool.held, arrPool.held)
      ensures Mirrors(p, recTree[p], nodePool.held, headPool.held, entryPool.held, arrPool.held)
      ensures StandsApart(p, recTree[p]) && forall q :: q in recTree && q != p ==> recTree[q] != recTree[p]
    {
      hide Supply, PoolsOk, PagesOk, MirrorsExcept, MirrorsOk, StandsApart, Objects;
      hide EntriesOut, ArraysOut, NodesOut, HeadsOut, Mirrors;
      FocusOn(p);
      MirrorsOf(p);
      AllOut();
    }

    lemma DrawDone(p: nat, node: RecTreeNode, ch: Holdings<RecBlockEntry>, ah: Holdings<array<MemRec>>,
                   rbe: RecBlockEntry, recArr: array<MemRec>)
      requires MirrorsExcept(p, nodePool.held, headPool.held, ch, ah)
      requires Mirrors(p, node, nodePool.held, headPool.held, ch, ah)
      requires entryPool.held == Drawn(ch, p, rbe) && arrPool.held == Drawn(ah, p, recArr)
      ensures MirrorsExcept(p, nodePool.held, headPool.held, entryPool.held, arrPool.held)
      ensures Drew(p, node, rbe, recArr)
    {
      hide MirrorsExcept, Mirrors, Drew, Drawn;
      DrawnElsewhere(p, nodePool.held, headPool.held, ch, ah, rbe, recArr);
      DrewBlock(p, node, ch, ah, rbe, recArr);
    }

    /** writeRec, block full: the allocations. */
    method DrawBlock(p: nat, node: RecTreeNode) returns (rbe: RecBlockEntry, recArr: array<MemRec>)
      requires Valid() && p in recTree && recTree[p] == node
      modifies arrPool, entryPool, `Repr
      ensures PoolsOk() && PagesOk(Objects())
      ensures MirrorsExcept(p, nodePool.held, headPool.held, entryPool.held, arrPool.held)
      ensures NewEntry(rbe) && NewArray(recArr) && Drew(p, node, rbe, recArr)
      ensures StandsApart(p, node) && (forall q :: q in recTree && q != p ==> recTree[q] != node)
      ensures Supply() && fresh(Repr - old(Repr))
      ensures (rbe in old(entryPool.all) || fresh(rbe)) && (recArr in old(arrPool.all) || fresh(recArr))
      ensures rbe in entryPool.all && recArr in arrPool.all && recArr.Length == MEMRECPERENTRY
    {
      hide Valid, Supply, PoolsOk, PagesOk, MirrorsExcept, StandsApart, Objects;
      hide NewEntry, NewArray, EntriesOut, ArraysOut, Mirrors, Drew, Drawn;
      DrawReady(p);
      ghost var ch, ah := entryPool.held, arrPool.held;
      rbe, recArr := TakeBlock(p);
      DrawDone(p, node, ch, ah, rbe, recArr);
    }

    /** writeRec, block full. */
    method PushTo(p: nat, node: RecTreeNode, rec: MemRec)
      requires Valid() && p in recTree && recTree[p] == node && node.memRecIdx == MEMRECPERENTRY
      modifies arrPool, entryPool, Objects(), `Repr
      ensures PoolsOk() && MirrorsOk(nodePool.held, headPool.held, entryPool.held, arrPool.held) && PagesOk(Objects())
      ensures node.recs == old(node.recs) + [rec]
      ensures recTree == old(recTree) && Supply() && fresh(Repr - old(Repr))
      ensures Others(p) == old(Others(p))
    {
      hide Others, Supply, PoolsOk, PagesOk, MirrorsExcept, MirrorsOk, StandsApart, Objects;
      hide NewEntry, NewArray, EntriesOut, ArraysOut, Mirrors, Drew, RecTreeNode.Valid, FullLength;
      PageOf(p);
      BlocksCover();
      var rbe, recArr := DrawBlock(p, node);
      AttachBlock(p, node, rbe, recArr, rec);
    }

    /** The accounts change at page p only. */
    lemma ReplacedElsewhere(p: nat, nh: Holdings<RecTreeNode>, hh: Holdings<TailHead>,
                            ch: Holdings<RecBlockEntry>, ah: Holdings<array<MemRec>>,
                            chain: seq<RecBlockEntry>, arrs: seq<array<MemRec>>)
      requires MirrorsExcept(p, nh, hh, ch, ah)
      ensures MirrorsExcept(p, nh, hh, ch[p := chain], ah[p := arrs])
    {
    }

    lemma PageInUse(p: nat)
      requires Valid() && p in recTree
      ensures InUse(recTree[p], p, entryPool, arrPool)
    {
      hide Pool.Valid, RecTreeNode.Linked;
      assert Mirrors(p, recTree[p], nodePool.held, headPool.held, entryPool.held, arrPool.held);
    }

    /** What the reset of page p needs to know. */
    lemma ResetReady(p: nat)
      requires Valid() && p in recTree
      ensures MirrorsExcept(p, nodePool.held, headPool.held, entryPool.held, arrPool.held)
      ensures StandsApart(p, recTree[p]) && InUse(recTree[p], p, entryPool, arrPool)
      ensures forall q :: q in recTree && q != p ==> recTree[q] != recTree[p]
      ensures p in nodePool.held && nodePool.held[p] == [recTree[p]] && recTree[p].listHead != null
      ensures p in headPool.held && headPool.held[p] == [recTree[p].listHead]
    {
      hide PoolsOk, PagesOk, MirrorsExcept, MirrorsOk, StandsApart, Objects, InUse, Mirrors, RecTreeNode.Valid;
      FocusOn(p);
      MirrorsBase(p);
      PageInUse(p);
    }

    /** After the reset, the accounts of all pages are right again. */
    lemma ResetDone(p: nat, nh: Holdings<RecTreeNode>, hh: Holdings<TailHead>,
                    ch: Holdings<RecBlockEntry>, ah: Holdings<array<MemRec>>)
      requires p in recTree && MirrorsExcept(p, nh, hh, ch, ah)
      requires nodePool.held == nh && nh.Keys >= {p} && nh[p] == [recTree[p]] && recTree[p].listHead != null
      requires headPool.held == hh && hh.Keys >= {p} && hh[p] == [recTree[p].listHead]
      requires entryPool.held == ch[p := recTree[p].chain] && arrPool.held == ah[p := recTree[p].arrs]
      ensures MirrorsOk(nodePool.held, headPool.held, entryPool.held, arrPool.held)
    {
      hide MirrorsExcept, MirrorsOk;
      ReplacedElsewhere(p, nh, hh, ch, ah, recTree[p].chain, recTree[p].arrs);
      FocusOff(p, nodePool.held, headPool.held, entryPool.held, arrPool.held);
    }

    /** DELETE_TREENODE: page p starts over. */
    method ResetPage(p: nat, node: RecTreeNode)
      requires Valid() && p in recTree && recTree[p] == node
      modifies node`chain, node`arrs, node`recs, node`slots, node`recModEntry, node`memRecIdx, node.listHead, node.chain
      modifies entryPool`idx, entryPool`free, entryPool`out, entryPool`held, entryPool.table
      modifies arrPool`idx, arrPool`free, arrPool`out, arrPool`held, arrPool.table
      ensures PoolsOk() && PagesOk(Objects())
      ensures MirrorsOk(nodePool.held, headPool.held, entryPool.held, arrPool.held)
      ensures node.recs == [] && node.memRecIdx == 0
      ensures recTree == old(recTree) && Supply() && Objects() == old(Objects())
      ensures Others(p) == old(Others(p))
    {
      hide Others, PoolsOk, PagesOk, MirrorsExcept, MirrorsOk, StandsApart, InUse, RecTreeNode.Valid;
      ResetReady(p);
      ghost var nh, hh, ch, ah := nodePool.held, headPool.held, entryPool.held, arrPool.held;
      ResetOfPage(p, node, Objects());
      ResetDone(p, nh, hh, ch, ah);
    }

    /** A tree node for page p; the reclaim of old nodes is not reached. */
    method TakeNode(p: nat) returns (node: RecTreeNode)
      requires PoolsOk() && PagesOk(Objects()) && NodesOut() && Supply() && nodePool.free != []
      modifies nodePool
      ensures Supply() && PoolsOk() && PagesOk(Objects()) && node !in recTree.Values
      ensures node in nodePool.all && nodePool.all == old(nodePool.all)
      ensures nodePool.held == Drawn(old(nodePool.held), p, node)
      ensures |nodePool.free| == old(|nodePool.free|) - 1 && nodePool.table == old(nodePool.table)
    {
      hide PagesOk, Pool.Valid;
      PoolsAreNoObjects();
      ghost var objs := Objects();
      node := AllocateRecTreeNode(nodePool, p);
      assert PagesOk(objs);
      PagesOkGrows(objs, Objects());
    }

    /** A tree node and a list head for page p. */
    method TakeNodeAndHead(p: nat) returns (node: RecTreeNode, head: TailHead)
      requires PoolsOk() && PagesOk(Objects()) && nodePool.free != []
      requires Supply() && NodesOut() && HeadsOut()
      modifies nodePool, headPool, `Repr
      ensures PoolsOk() && PagesOk(Objects()) && node !in recTree.Values && NewHead(head)
      ensures node in nodePool.all && head in headPool.all && (head in old(headPool.all) || fresh(head))
      ensures nodePool.held == Drawn(old(nodePool.held), p, node) && headPool.held == Drawn(old(headPool.held), p, head)
      ensures |nodePool.free| == old(|nodePool.free|) - 1 && nodePool.all == old(nodePool.all)
      ensures Supply() && fresh(Repr - old(Repr))
    {
      hide Supply, PoolsOk, PagesOk, Objects, NewHead, HeadsOut, NodesOut;
      node := TakeNode(p);
      head := TakeHead(p);
    }

    /** The first block of page p: an entry and its array. */
    method TakeFirstBlock(p: nat) returns (ent: RecBlockEntry, recArr: array<MemRec>)
      requires PoolsOk() && PagesOk(Objects()) && Supply() && EntriesOut() && ArraysOut()
      modifies entryPool, arrPool, `Repr
      ensures PoolsOk() && PagesOk(Objects()) && NewEntry(ent) && NewArray(recArr)
      ensures ent in entryPool.all && recArr in arrPool.all && recArr.Length == MEMRECPERENTRY
      ensures (ent in old(entryPool.all) || fresh(ent)) && (recArr in old(arrPool.all) || fresh(recArr))
      ensures entryPool.held == Drawn(old(entryPool.held), p, ent)
      ensures arrPool.held == Drawn(old(arrPool.held), p, recArr)
      ensures Supply() && fresh(Repr - old(Repr))
    {
      hide Supply, PoolsOk, PagesOk, Objects, NewEntry, NewArray, EntriesOut, ArraysOut;
      ent := TakeEntry(p);
      recArr := TakeArray(p);
    }

    /** The four objects of a new page p, in the order of addTreeNode. */
    method DrawPage(p: nat) returns (node: RecTreeNode, head: TailHead, ent: RecBlockEntry, recArr: array<MemRec>)
      requires PoolsOk() && PagesOk(Objects()) && nodePool.free != []
      requires Supply() && NodesOut() && HeadsOut() && EntriesOut() && ArraysOut()
      modifies nodePool, headPool, entryPool, arrPool, `Repr
      ensures PoolsOk() && PagesOk(Objects())
      ensures node !in recTree.Values && NewHead(head) && NewEntry(ent) && NewArray(recArr)
      ensures node in nodePool.all && head in headPool.all && ent in entryPool.all && recArr in arrPool.all
      ensures recArr.Length == MEMRECPERENTRY
      ensures nodePool.held == Drawn(old(nodePool.held), p, node) && headPool.held == Drawn(old(headPool.held), p, head)
      ensures entryPool.held == Drawn(old(entryPool.held), p, ent)
      ensures arrPool.held == Drawn(old(arrPool.held), p, recArr)
      ensures |nodePool.free| == old(|nodePool.free|) - 1 && nodePool.all == old(nodePool.all)
      ensures Supply() && fresh(Repr - old(Repr))
      ensures head in old(headPool.all) || fresh(head)
      ensures (ent in old(entryPool.all) || fresh(ent)) && (recArr in old(arrPool.all) || fresh(recArr))
    {
      hide Supply, PoolsOk, PagesOk, Objects, NewHead, NewEntry, NewArray, HeadsOut, EntriesOut, ArraysOut, NodesOut;
      node, head := TakeNodeAndHead(p);
      ent, recArr := TakeFirstBlock(p);
    }

    /** A page nobody had: its first draws are all it has. */
    lemma FirstDraws(p: nat, nh: Holdings<RecTreeNode>, hh: Holdings<TailHead>,
                     ch: Holdings<RecBlockEntry>, ah: Holdings<array<MemRec>>,
                     node: RecTreeNode, head: TailHead, ent: RecBlockEntry, recArr: array<MemRec>)
      requires p !in recTree && MirrorsOk(nh, hh, ch, ah)
      ensures MirrorsExcept(p, Drawn(nh, p, node), Drawn(hh, p, head), Drawn(ch, p, ent), Drawn(ah, p, recArr))
      ensures p in Drawn(nh, p, node) && p in Drawn(hh, p, head) && p in Drawn(ch, p, ent) && p in Drawn(ah, p, recArr)
      ensures Drawn(nh, p, node)[p] == [node] && Drawn(hh, p, head)[p] == [head]
      ensures Drawn(ch, p, ent)[p] == [ent] && Drawn(ah, p, recArr)[p] == [recArr]
    {
    }

    /** The objects drawn become page p. */
    method AttachPage(p: nat, node: RecTreeNode, head: TailHead, ent: RecBlockEntry, recArr: array<MemRec>)
      requires PoolsOk() && PagesOk(Objects()) && Supply() && p !in recTree && node !in recTree.Values
      requires MirrorsExcept(p, nodePool.held, headPool.held, entryPool.held, arrPool.held)
      requires NewHead(head) && NewEntry(ent) && NewArray(recArr) && recArr.Length == MEMRECPERENTRY
      requires node in nodePool.all && head in headPool.all && ent in entryPool.all && recArr in arrPool.all
      requires p in nodePool.held && nodePool.held[p] == [node] && p in headPool.held && headPool.held[p] == [head]
      requires p in entryPool.held && entryPool.held[p] == [ent] && p in arrPool.held && arrPool.held[p] == [recArr]
      modifies `recTree, node, head, ent
      ensures PoolsOk() && PagesOk(Objects()) && Supply()
      ensures MirrorsOk(nodePool.held, headPool.held, entryPool.held, arrPool.held)
      ensures recTree == old(recTree)[p := node] && node.recs == [] && node.memRecIdx == 0
      ensures node.arrs == [recArr] && Others(p) == old(Others(p))
    {
      hide Others, Supply, PoolsOk, PagesOk, MirrorsOk, Objects, NewHead, NewEntry, NewArray;
      hide RecTreeNode.Valid;
      InObjects(node, head, ent, recArr);
      InitPage(p, node, head, ent, recArr, Objects());
      PoolsUntouched();
      FocusOff(p, nodePool.held, headPool.held, entryPool.held, arrPool.held);
    }

    /** What addTreeNode needs to know before it draws a page. */
    lemma PageReady()
      requires Valid()
      ensures PoolsOk() && PagesOk(Objects()) && Supply()
      ensures NodesOut() && HeadsOut() && EntriesOut() && ArraysOut()
      ensures MirrorsOk(nodePool.held, headPool.held, entryPool.held, arrPool.held)
    {
      hide PoolsOk, PagesOk, MirrorsOk, NodesOut, HeadsOut, EntriesOut, ArraysOut;
      AllOut();
    }

    /** addTreeNode */
    method AddTreeNode(p: nat) returns (node: RecTreeNode)
      requires Valid() && p !in recTree && |nodePool.free| >= RECTREENODETHRESHOLD
      modifies `recTree, `Repr, nodePool, headPool, entryPool, arrPool, Objects()
      ensures PoolsOk() && PagesOk(Objects())
      ensures MirrorsOk(nodePool.held, headPool.held, entryPool.held, arrPool.held)
      ensures recTree == old(recTree)[p := node] && node.recs == [] && node.memRecIdx == 0
      ensures Others(p) == old(Others(p))
      ensures |nodePool.free| == old(|nodePool.free|) - 1
      ensures node in old(nodePool.all) && |node.arrs| == 1
      ensures node.arrs[0] in old(arrPool.all) || fresh(node.arrs[0])
      ensures Supply() && fresh(Repr - old(Repr))
    {
      hide Valid, Others, Supply, PoolsOk, PagesOk, MirrorsOk, MirrorsExcept, Objects, NewHead, NewEntry, NewArray;
      hide HeadsOut, EntriesOut, ArraysOut, NodesOut, RecTreeNode.Valid, Drawn;
      PageReady();
      ObjectsCover();
      ghost var nh, hh, ch, ah := nodePool.held, headPool.held, entryPool.held, arrPool.held;
      var head, ent, recArr;
      node, head, ent, recArr := DrawPage(p);
      FirstDraws(p, nh, hh, ch, ah, node, head, ent, recArr);
      AttachPage(p, node, head, ent, recArr);
    }

    // ---- insertRec ------------------------------------------------------------------------------

    /** The records of every traced page. */
    ghost function Contents(): View
      reads `recTree, recTree.Values
    {
      map p | p in recTree :: recTree[p].recs
    }

    /** A new page does not trigger the reclaim. */
    ghost predicate Room(p: nat)
      reads `recTree, nodePool
    {
      p in recTree || |nodePool.free| >= RECTREENODETHRESHOLD
    }

    /** None of these pages triggers the reclaim when it becomes traced. */
    ghost predicate RoomFor(pages: set<nat>)
      reads `recTree, nodePool
    {
      Enough(|nodePool.free|, recTree.Keys, pages)
    }

    lemma RoomForOne(pages: set<nat>, p: nat)
      requires RoomFor(pages) && p in pages
      ensures Room(p)
    {
      if p !in recTree {
        assert pages - recTree.Keys != {} by { assert p in pages - recTree.Keys; }
      }
    }

    lemma RoomIs(pages: set<nat>)
      ensures RoomFor(pages) <==> Enough(|nodePool.free|, Contents().Keys, pages)
    {
      ContentsKeys();
    }

    twostate lemma OnePageChanged(p: nat)
      requires p in recTree && recTree == old(recTree)
      requires Others(p) == old(Others(p))
      ensures Contents() == old(Contents())[p := recTree[p].recs]
    {
      assert forall q :: q in recTree && q != p ==> q in Others(p) && Others(p)[q].recs == old(Others(p))[q].recs;
    }

    /** writeRec */
    method WriteRec(p: nat, node: RecTreeNode, rec: MemRec)
      requires Valid() && p in recTree && recTree[p] == node
      modifies arrPool, entryPool, Objects(), `Repr
      ensures fresh(Repr - old(Repr))
      ensures Valid() && Contents() == old(Contents())[p := old(node.recs) + [rec]]
      ensures recTree == old(recTree) && Others(p) == old(Others(p))
    {
      hide Others, Supply, PoolsOk, PagesOk, MirrorsOk, Objects, RecTreeNode.Valid, StandsApart, Contents;
      PageOf(p);
      MaxIndex(p);
      if node.memRecIdx < MEMRECPERENTRY {
        AppendTo(p, node, rec);
      } else {
        PushTo(p, node, rec);
      }
      OnePageChanged(p);
    }

    lemma MaxIndex(p: nat)
      requires PagesOk(Objects()) && p in recTree
      ensures recTree[p].memRecIdx <= MEMRECPERENTRY
    {
    }

    lemma PageContents(p: nat)
      requires p in recTree
      ensures p in Contents() && Contents()[p] == recTree[p].recs
    {
    }

    lemma BlocksOf(p: nat)
      requires PagesOk(Objects()) && p in recTree
      ensures forall e :: e in recTree[p].chain ==> e in Objects()
    {
      hide RecTreeNode.Valid;
    }

    /** insertRec, the deletion of a page's records when the new address is not larger than the last. */
    method ResetIfNotLarger(p: nat, node: RecTreeNode, rec: MemRec)
      requires Valid() && p in recTree && recTree[p] == node
      modifies entryPool, entryPool.table, arrPool, arrPool.table, Objects()
      ensures Valid() && recTree == old(recTree) && Repr == old(Repr) && Objects() == old(Objects())
      ensures Contents() == old(Contents())[p := node.recs] && Others(p) == old(Others(p))
      ensures node.recs == if Restarts(old(node.recs), rec) then [] else old(node.recs)
    {
      hide Others, Supply, PoolsOk, PagesOk, MirrorsOk, Objects, RecTreeNode.Valid, StandsApart, Contents;
      PageContents(p);
      PageOf(p);
      BlocksOf(p);
      PoolsAreNoObjects();
      if node.NotLarger(rec.pageOffset) {
        ResetPage(p, node);
        OnePageChanged(p);
      }
    }

    /** insertRec for a page that is traced. */
    method InsertTraced(p: nat, rec: MemRec)
      requires Valid() && p in recTree
      modifies `Repr, entryPool, entryPool.table, arrPool, arrPool.table, Objects()
      ensures Valid() && Contents() == old(Contents())[p := AppendOrReset(old(Contents())[p], rec)]
      ensures Others(p) == old(Others(p))
      ensures fresh(Repr - old(Repr))
    {
      hide Valid, Others, Objects, Contents, Restarts;
      PoolsAreNoObjects();
      var node := recTree[p];
      PageContents(p);
      ResetIfNotLarger(p, node, rec);
      assert [] + [rec] == [rec];
      label L:
      WriteRec(p, node, rec);
      forall o | o in Repr && o !in old(Repr)
        ensures fresh(o)
      {
        assert o in Repr - old@L(Repr) && fresh@L(o);
      }
    }

    /** insertRec for a page that is not traced yet. */
    method InsertUntraced(p: nat, rec: MemRec)
      requires Valid() && p !in recTree && Room(p)
      modifies `recTree, `Repr, nodePool, headPool, entryPool, arrPool, Objects()
      ensures Valid() && Contents() == old(Contents())[p := [rec]]
      ensures Others(p) == old(Others(p))
      ensures |nodePool.free| == old(|nodePool.free|) - 1
      ensures fresh(Repr - old(Repr))
    {
      hide Others, Supply, PoolsOk, PagesOk, MirrorsOk, Objects, RecTreeNode.Valid, StandsApart, Contents;
      PoolsAreNoObjects();
      ObjectsCover();
      var node := AddTreeNode(p);
      PageAdded(p);
      PageOf(p);
      OnlyArray(p);
      AppendTo(p, node, rec);   // writeRec with index 0
      PageAdded(p);
      assert [] + [rec] == [rec];
    }

    lemma OnlyArray(p: nat)
      requires PagesOk(Objects()) && p in recTree && |recTree[p].arrs| == 1
      ensures recTree[p].recModEntry != null && recTree[p].recModEntry.recArr == recTree[p].arrs[0]
    {
    }

    twostate lemma PageAdded(p: nat)
      requires p in recTree && recTree.Keys == old(recTree.Keys) + {p} && p !in old(recTree)
      requires Others(p) == old(Others(p))
      ensures Contents() == old(Contents())[p := recTree[p].recs]
    {
      assert forall q :: q in old(recTree) ==> q in Others(p) && Others(p)[q].recs == old(Others(p))[q].recs;
    }

    lemma SupplyOf()
      requires Valid()
      ensures Supply() && Objects() <= Repr
    {
      hide PoolsOk, PagesOk, MirrorsOk;
    }

    lemma ContentsKeys()
      ensures Contents().Keys == recTree.Keys
    {
    }

    /** insertRec refines append-or-reset on the map of pages, and draws a tree node exactly for a
        new page. */
    method InsertRec(fileOffset: nat, dest: nat, fileName: nat, fd: int)
      requires Valid() && Room(PageNum(dest))
      modifies this, Repr
      ensures Valid() && Contents() == Insert(old(Contents()), Arrival(dest, fileOffset, fileName, fd))
      ensures ArrivedAt(old(Contents()), Contents(), dest / 4096, MemRec(fileOffset, fileName, dest % 4096, fd))
      ensures |nodePool.free| + |Contents()| == old(|nodePool.free| + |Contents()|)
      ensures Others(PageNum(dest)) == old(Others(PageNum(dest)))
      ensures fresh(Repr - old(Repr))
    {
      hide Valid, Objects, Contents, ArrivedAt, Insert, AppendOrReset;
      ghost var v := Contents();
      InsertArrives(v, dest, fileOffset, fileName, fd);
      InsertIs(v, Arrival(dest, fileOffset, fileName, fd));
      PoolsAreNoObjects();
      SupplyOf();
      ContentsKeys();
      var p := PageNum(dest);
      var rec := MemRec(fileOffset, fileName, PageOffset(dest), fd);
      if p in recTree {
        InsertTraced(p, rec);
      } else {
        InsertUntraced(p, rec);
      }
    }

    /** insertRec on one of the pages there is room for; page `keep` is not among them. */
    method InsertRecBeside(fileOffset: nat, dest: nat, fileName: nat, fd: int, ghost pages: set<nat>, ghost keep: nat)
      requires Valid() && RoomFor(pages) && PageNum(dest) in pages && keep in recTree && keep !in pages
      modifies this, Repr
      ensures Valid() && RoomFor(pages) && fresh(Repr - old(Repr))
      ensures Contents() == Insert(old(Contents()), Arrival(dest, fileOffset, fileName, fd))
      ensures keep in recTree && recTree[keep] == old(recTree[keep])
      ensures recTree[keep].arrs == old(recTree[keep].arrs) && recTree[keep].slots == old(recTree[keep].slots)
    {
      hide Valid, Contents, RoomFor, Others, Enough;
      RoomForOne(pages, PageNum(dest));
      RoomIs(pages);
      AmongOthers(PageNum(dest), keep);
      ghost var free, v := |nodePool.free|, Contents();
      InsertRec(fileOffset, dest, fileName, fd);
      AmongOthers(PageNum(dest), keep);
      EnoughKept(free, v, |nodePool.free|, Contents(), pages, PageNum(dest));
      RoomIs(pages);
    }

    /** ts_memcpy_traced cuts page p, of one block, off at record k. */
    method TruncatePage(p: nat, node: RecTreeNode, k: nat)
      requires Valid() && p in recTree && recTree[p] == node && k <= |node.recs| <= MEMRECPERENTRY
      modifies node`recModEntry, node`memRecIdx, node`recs
      ensures Valid() && recTree == old(recTree)
      ensures Contents() == old(Contents())[p := old(node.recs)[..k]]
      ensures node.arrs == old(node.arrs) && node.slots == old(node.slots)
    {
      hide Supply, PoolsOk, PagesOk, MirrorsOk, MirrorsExcept, Objects;
      hide RecTreeNode.Valid, StandsApart, Contents, Others;
      FocusOn(p);
      OneBlock(p);
      CutPage(p, node, k, Objects());
      PoolsUntouched();
      OnePageChanged(p);
    }

    method CutPage(p: nat, node: RecTreeNode, k: nat, ghost objs: set<object>)
      requires PagesOk(objs) && p in recTree && recTree[p] == node && StandsApart(p, node)
      requires |node.chain| == 1 && k <= node.memRecIdx
      modifies node`recModEntry, node`memRecIdx, node`recs
      ensures PagesOk(objs) && node.recs == old(node.recs)[..k]
      ensures Others(p) == old(Others(p))
    {
      hide Others, RecTreeNode.Valid;
      node.Truncate(k);
    }

    /** A page with at most 38 records has one block; it is its own last, and holds the slots. */
    lemma OneBlock(p: nat)
      requires Valid() && p in recTree && |recTree[p].recs| <= MEMRECPERENTRY
      ensures var n := recTree[p];
        && |n.chain| == |n.arrs| == 1 && n.memRecIdx == |n.recs| && n.listHead != null
        && n.listHead.last == n.recModEntry == n.chain[0] && n.chain[0].prev == null
        && n.chain[0].recArr == n.arrs[0] && n.recs <= n.slots
        && ArrayHolds(n.arrs[0], n.slots)
    {
      hide Valid, RecTreeNode.Valid;
      Look(p);
      recTree[p].OneBlockFacts();
      recTree[p].OneArrayFacts();
    }

    lemma SlotsHeld(p: nat)
      requires Valid() && p in recTree && |recTree[p].arrs| == 1
      ensures ArrayHolds(recTree[p].arrs[0], recTree[p].slots)
    {
      hide Valid, RecTreeNode.Valid;
      Look(p);
      recTree[p].OneArrayFacts();
    }

    lemma AmongOthers(q: nat, p: nat)
      requires p != q
      ensures p in recTree <==> p in Others(q)
      ensures p in recTree ==>
        var n := recTree[p]; Others(q)[p] == PageState(n, n.listHead, n.chain, n.arrs, n.recs, n.slots)
    {
    }

    /** What a reader of page p can rely on. */
    lemma Look(p: nat)
      requires Valid() && p in recTree
      ensures recTree[p].Valid() && p in Contents() && Contents()[p] == recTree[p].recs
      ensures recTree[p].Within(Repr)
    {
      hide PoolsOk, MirrorsOk, RecTreeNode.Valid;
      SupplyOf();
    }

    /** A page has as many blocks as its records fill, at least one; so never more than 108. */
    lemma BlocksOfPage(p: nat)
      requires Valid() && p in recTree && WellFormed(Contents())
      ensures |recTree[p].chain| == if recTree[p].recs == [] then 1 else Blocks(|recTree[p].recs|)
      ensures |recTree[p].chain| == |recTree[p].arrs| <= 108
      ensures recTree[p].recs != [] ==>
        38 * (|recTree[p].chain| - 1) < |recTree[p].recs| <= 38 * |recTree[p].chain|
    {
      hide Valid;
      Look(p);
      AscendingIsShort(recTree[p].recs, PAGE_SIZE);
    }

    /** Conservation: what the pools have handed out is what the tree reaches, no more and no less,
        with one node and one head for every page and one array for every block. */
    lemma NodesConserved()
      requires Valid()
      ensures forall n :: n in nodePool.out <==> exists p :: p in recTree && n == recTree[p]
      ensures forall h :: h in headPool.out <==> exists p :: p in recTree && h == recTree[p].listHead
    {
      hide PagesOk, Pool.Valid, Mirrors;
      AllOut();
      forall n | n in nodePool.out
        ensures exists p :: p in recTree && n == recTree[p]
      {
        nodePool.OutIsHeld(n);
        var p :| p in nodePool.held && n in nodePool.held[p];
        MirrorsBase(p);
      }
      forall h | h in headPool.out
        ensures exists p :: p in recTree && h == recTree[p].listHead
      {
        headPool.OutIsHeld(h);
        var p :| p in headPool.held && h in headPool.held[p];
        MirrorsBase(p);
      }
    }

    lemma BlocksConserved()
      requires Valid()
      ensures forall e :: e in entryPool.out <==> exists p :: p in recTree && e in recTree[p].chain
      ensures forall a :: a in arrPool.out <==> exists p :: p in recTree && a in recTree[p].arrs
    {
      hide PagesOk, Pool.Valid, Mirrors;
      AllOut();
      forall e | e in entryPool.out
        ensures exists p :: p in recTree && e in recTree[p].chain
      {
        entryPool.OutIsHeld(e);
        var p :| p in entryPool.held && e in entryPool.held[p];
        AccountsOf(p);
      }
      forall a | a in arrPool.out
        ensures exists p :: p in recTree && a in recTree[p].arrs
      {
        arrPool.OutIsHeld(a);
        var p :| p in arrPool.held && a in arrPool.held[p];
        AccountsOf(p);
      }
    }

    /** The number of blocks of all traced pages together. */
    ghost function BlockCount(): nat
      reads `recTree, recTree.Values`chain
    {
      Sum(map p | p in recTree :: |recTree[p].chain|)
    }

    /** Conservation in numbers: one node and one head for every page, one entry and one array for every
        block; and what is free is in no page. */
    lemma CountsConserved()
      requires Valid()
      ensures |nodePool.out| == |headPool.out| == |recTree|
      ensures |entryPool.out| == |arrPool.out| == BlockCount()
      ensures forall e, p :: e in entryPool.free && p in recTree ==> e !in recTree[p].chain
      ensures forall a, p :: a in arrPool.free && p in recTree ==> a !in recTree[p].arrs
    {
      hide Pool.Valid, PagesOk, Mirrors;
      AllOut();
      nodePool.OutIsCounted();
      headPool.OutIsCounted();
      entryPool.OutIsCounted();
      arrPool.OutIsCounted();
      LengthsAre();
      SumOfOnes(Lengths(nodePool.held));
      assert Lengths(nodePool.held) == map p | p in recTree :: 1;
      assert Lengths(nodePool.held).Keys == recTree.Keys;
      assert |Lengths(nodePool.held)| == |Lengths(nodePool.held).Keys| && |recTree| == |recTree.Keys|;
    }

    lemma LengthsAre()
      requires Valid()
      ensures Lengths(nodePool.held) == Lengths(headPool.held) == map p | p in recTree :: 1
      ensures Lengths(entryPool.held) == Lengths(arrPool.held) == map p | p in recTree :: |recTree[p].chain|
    {
      hide PoolsOk, PagesOk, MirrorsOk, Lengths;
      HeldKeys();
      ghost var ones := map p | p in recTree :: 1;
      ghost var blocks := map p | p in recTree :: |recTree[p].chain|;
      forall p | p in recTree
        ensures |nodePool.held[p]| == |headPool.held[p]| == 1
        ensures |entryPool.held[p]| == |arrPool.held[p]| == |recTree[p].chain|
      {
        MirrorsOf(p);
        AsManyArrays(p);
      }
      LengthsOf(nodePool.held, ones);
      LengthsOf(headPool.held, ones);
      LengthsOf(entryPool.held, blocks);
      LengthsOf(arrPool.held, blocks);
    }

    lemma HeldKeys()
      requires MirrorsOk(nodePool.held, headPool.held, entryPool.held, arrPool.held)
      ensures nodePool.held.Keys == headPool.held.Keys == recTree.Keys
      ensures entryPool.held.Keys == arrPool.held.Keys == recTree.Keys
    {
    }

    lemma AsManyArrays(p: nat)
      requires PagesOk(Objects()) && p in recTree
      ensures |recTree[p].chain| == |recTree[p].arrs|
    {
    }

    lemma AccountsOf(p: nat)
      requires MirrorsOk(nodePool.held, headPool.held, entryPool.held, arrPool.held) && p in recTree
      ensures entryPool.held[p] == recTree[p].chain && arrPool.held[p] == recTree[p].arrs
    {
      MirrorsOf(p);
    }

    lemma EmptyTree(objs: set<object>)
      requires recTree == map[]
      ensures PagesOk(objs) && MirrorsOk(map[], map[], map[], map[]) && Contents() == map[]
    {
    }

    lemma PoolsFilled()
      requires nodePool.Valid() && headPool.Valid() && entryPool.Valid() && arrPool.Valid() && FullLength(arrPool.all)
      ensures PoolsOk()
    {
    }

    lemma Supplied(nodes: set<object>, heads: set<object>, entries: set<object>, arrs: set<object>)
      requires nodePool in nodes && nodePool.table in nodes && nodePool.all <= nodes
      requires headPool in heads && headPool.table in heads && headPool.all <= heads
      requires entryPool in entries && entryPool.table in entries && entryPool.all <= entries
      requires arrPool in arrs && arrPool.table in arrs && arrPool.all <= arrs
      requires Repr == nodes + heads + entries + arrs
      ensures Supply()
    {
    }

    /** init: initMemory and the empty tree. */
    constructor ()
      ensures Valid() && fresh(Repr) && Contents() == map[]
      ensures |nodePool.free| == RECTREENODEPOOLSIZE
      ensures nodePool.elementBytes == 32 && headPool.elementBytes == 16
      ensures entryPool.elementBytes == 24 && arrPool.elementBytes == 24 * 38
      ensures nodePool.size == headPool.size == 8000 && entryPool.size == arrPool.size == 6000
    {
      hide Supply, PoolsOk, MirrorsOk, PagesOk, Objects, Contents, Pool.Valid, FullLength;
      var nodes, p1 := NewNodePool();
      var heads, p2 := NewHeadPool();
      var entries, p3 := NewEntryPool();
      var arrs, p4 := NewArrPool();
      nodePool, headPool, entryPool, arrPool := nodes, heads, entries, arrs;
      recTree := map[];
      Repr := p1 + p2 + p3 + p4;
      new;
      PoolsFilled();
      Supplied(p1, p2, p3, p4);
      EmptyTree(Objects());
    }
  }
}
