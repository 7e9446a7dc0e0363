/** The operations of the library one after the other, on the heap: what a program that maps files,
    copies out of them and writes the copies finds in the counters. */
module Scenarios {
  import opened Addr
  import opened Bst
  import opened Cidl
  import opened EndToEnd
  import opened FileMaps
  import opened MatchSpec
  import opened Memory
  import opened MoveToEnd
  import opened TraceSpec
  import Trace
  import TracedSpec

  /** The library is in a state that its operations keep, with files mapped under different names. */
  ghost predicate Usable(lib: Library)
    reads lib, lib.index, lib.index.nodePool, lib.index.headPool, lib.index.entryPool, lib.index.arrPool
    reads lib.index.nodePool.table, lib.index.headPool.table, lib.index.entryPool.table, lib.index.arrPool.table
    reads lib.index.Objects(), lib.index.recTree.Values
  {
    && lib.index.Valid() && lib !in lib.index.Repr && WellFormed(lib.index.Contents())
    && Registered(InOrder(lib.fileMapTree), lib.fileMapNameTree)
  }

  /** The source range is inside a mapping and no other mapping clashes with it. */
  ghost predicate Copyable(lib: Library, src: nat, n: nat)
    reads lib`fileMapTree
  {
    Inside(InOrder(lib.fileMapTree), src, n) && !Clash(InOrder(lib.fileMapTree), src, n)
  }

  predicate Disjoint(a: nat, b: nat, n: nat) {
    a + n <= b || b + n <= a
  }

  /** With this comparer and this length there is no false alarm. */
  predicate NoAlarms(lib: Library, n: nat) {
    lib.comparer.ByteLoop? || (n != 2 && n != 3)
  }

  /** What the scenarios leave alone. */
  twostate predicate MappingsKept(lib: Library)
    reads lib
  {
    && lib.fileMapTree == old(lib.fileMapTree) && lib.fileMapNameTree == old(lib.fileMapNameTree)
    && lib.openFileArray == old(lib.openFileArray) && lib.cursors == old(lib.cursors)
  }

  /** Copy in, write out as items of any size. */
  method CopyWriteItems(lib: Library, dest: nat, src: nat, size: nat, count: nat)
    requires Usable(lib) && Copyable(lib, src, size * count) && Disjoint(dest, src, size * count)
    requires lib.index.Room(PageNum(dest)) && dest + size * count < TWO64
    modifies lib, lib.index, lib.index.Repr
    ensures Usable(lib) && MappingsKept(lib) && lib.mem == Copied(old(lib.mem), dest, src, size * count)
    ensures lib.writeSize == old(lib.writeSize) + size * count
    ensures NoAlarms(lib, size * count) ==> lib.sameSize == old(lib.sameSize) + size * count
  {
    hide Trace.Index.Valid, Trace.Index.Contents, WellFormed, Registered, Inside, Clash, InOrder;
    hide Fwrite, Insert, Copied, MemcpyView;
    ghost var e, v := lib.Now(), lib.index.Contents();
    var n := size * count;
    Memcpy(lib, dest, src, n);
    lib.Fwrite(dest, size, count);
    WholeCopyCounts(e, lib.fileMapTree, v, dest, src, n);
  }

  /** Copy in, write out. */
  method CopyWrite(lib: Library, dest: nat, src: nat, n: nat)
    requires Usable(lib) && Copyable(lib, src, n) && Disjoint(dest, src, n)
    requires lib.index.Room(PageNum(dest)) && dest + n < TWO64
    modifies lib, lib.index, lib.index.Repr
    ensures Usable(lib) && MappingsKept(lib) && fresh(lib.index.Repr - old(lib.index.Repr))
    ensures lib.mem == Copied(old(lib.mem), dest, src, n)
    ensures lib.index.Contents() == MemcpyView(lib.fileMapTree, old(lib.index.Contents()), dest, src, n)
    ensures |lib.index.nodePool.free| + |lib.index.Contents()|
         == old(|lib.index.nodePool.free| + |lib.index.Contents()|)
    ensures lib.writeSize == old(lib.writeSize) + n
    ensures NoAlarms(lib, n) ==> lib.sameSize == old(lib.sameSize) + n
  {
    hide Trace.Index.Valid, Trace.Index.Contents, WellFormed, Registered, Inside, Clash, InOrder;
    hide Fwrite, Insert, Copied, MemcpyView;
    ghost var e, v := lib.Now(), lib.index.Contents();
    Memcpy(lib, dest, src, n);
    lib.Fwrite(dest, 1, n);
    WholeCopyCounts(e, lib.fileMapTree, v, dest, src, n);
  }

  /** ts_memcpy, in the terms of the scenarios. */
  method Memcpy(lib: Library, dest: nat, src: nat, n: nat)
    requires Usable(lib) && Disjoint(dest, src, n) && lib.index.Room(PageNum(dest))
    modifies lib`mem, lib.index, lib.index.Repr
    ensures Usable(lib) && fresh(lib.index.Repr - old(lib.index.Repr)) && lib.mem == Copied(old(lib.mem), dest, src, n)
    ensures MappingsKept(lib)
    ensures lib.index.Contents() == MemcpyView(lib.fileMapTree, old(lib.index.Contents()), dest, src, n)
    ensures |lib.index.nodePool.free| + |lib.index.Contents()|
         == old(|lib.index.nodePool.free| + |lib.index.Contents()|)
  {
    hide Trace.Index.Valid, Trace.Index.Contents, WellFormed, Registered, Insert, Copied;
    MemcpyKeepsWellFormed(lib.fileMapTree, lib.index.Contents(), dest, src, n);
    lib.Memcpy(dest, src, n);
  }

  // ---- Many copies ------------------------------------------------------------------------------

  datatype Job = Job(dest: nat, src: nat, n: nat)

  function Sum(jobs: seq<Job>): nat {
    if jobs == [] then 0 else Sum(jobs[..|jobs| - 1]) + jobs[|jobs| - 1].n
  }

  ghost function Pages(jobs: seq<Job>): set<nat> {
    set j | j in jobs :: PageNum(j.dest)
  }

  ghost predicate Doable(lib: Library, j: Job)
    reads lib`fileMapTree
  {
    Copyable(lib, j.src, j.n) && Disjoint(j.dest, j.src, j.n) && j.dest + j.n < TWO64
  }

  /** Any run of copies, each written out: the counter grows by the sum of their lengths. Later copies
      may go where earlier ones went. */
  method CopyWriteAll(lib: Library, jobs: seq<Job>)
    requires Usable(lib) && lib.index.RoomFor(Pages(jobs))
    requires forall j :: j in jobs ==> Doable(lib, j)
    modifies lib, lib.index, lib.index.Repr
    ensures Usable(lib) && MappingsKept(lib)
    ensures (forall j :: j in jobs ==> NoAlarms(lib, j.n)) ==> lib.sameSize == old(lib.sameSize) + Sum(jobs)
  {
    hide Usable, Copyable, Trace.Index.RoomFor, Trace.Index.Contents, Trace.Enough, MemcpyView;
    assert jobs[..0] == [];
    for i := 0 to |jobs|
      invariant Usable(lib) && MappingsKept(lib) && fresh(lib.index.Repr - old(lib.index.Repr))
      invariant lib.index.RoomFor(Pages(jobs))
      invariant forall j :: j in jobs ==> Doable(lib, j)
      invariant (forall j :: j in jobs ==> NoAlarms(lib, j.n)) ==> lib.sameSize == old(lib.sameSize) + Sum(jobs[..i])
    {
      label L:
      assert jobs[i] in jobs;
      OneMoreJob(jobs, i);
      DoOne(lib, jobs, jobs[i]);
      forall o | o in lib.index.Repr && o !in old(lib.index.Repr)
        ensures fresh(o)
      {
        assert o !in old@L(lib.index.Repr) ==> fresh@L(o);
      }
    }
    assert jobs[..|jobs|] == jobs;
  }

  lemma OneMoreJob(jobs: seq<Job>, i: nat)
    requires i < |jobs|
    ensures Sum(jobs[..i + 1]) == Sum(jobs[..i]) + jobs[i].n
  {
    assert jobs[..i + 1][..i] == jobs[..i];
  }

  /** One of the jobs. */
  method DoOne(lib: Library, ghost jobs: seq<Job>, j: Job)
    requires Usable(lib) && lib.index.RoomFor(Pages(jobs)) && j in jobs && Doable(lib, j)
    modifies lib, lib.index, lib.index.Repr
    ensures Usable(lib) && MappingsKept(lib) && fresh(lib.index.Repr - old(lib.index.Repr))
    ensures lib.index.RoomFor(Pages(jobs))
    ensures NoAlarms(lib, j.n) ==> lib.sameSize == old(lib.sameSize) + j.n
  {
    hide Usable, Copyable, Trace.Index.RoomFor, Trace.Index.Contents, Trace.Enough, MemcpyView;
    ghost var v, free, pages := lib.index.Contents(), |lib.index.nodePool.free|, Pages(jobs);
    IsRegistered(lib);
    lib.index.RoomForOne(pages, PageNum(j.dest));
    lib.index.RoomIs(pages);
    CopyWrite(lib, j.dest, j.src, j.n);
    CopyKeepsRoom(lib.fileMapTree, v, free, |lib.index.nodePool.free|, j, pages);
    lib.index.RoomIs(pages);
  }

  lemma IsRegistered(lib: Library)
    requires Usable(lib)
    ensures lib.index.Valid() && lib !in lib.index.Repr && Registered(InOrder(lib.fileMapTree), lib.fileMapNameTree)
  {
  }

  lemma CopyKeepsRoom(maps: Tree<FileMap>, v: View, free: nat, free': nat, j: Job, pages: set<nat>)
    requires Trace.Enough(free, v.Keys, pages) && PageNum(j.dest) in pages
    requires var v' := MemcpyView(maps, v, j.dest, j.src, j.n); free' + |v'| == free + |v|
    ensures Trace.Enough(free', MemcpyView(maps, v, j.dest, j.src, j.n).Keys, pages)
  {
    hide *;
    ViewIs(maps, v, j);
    if FindRange(maps, j.src, j.src + j.n).Some? {
      var a := CopyRecord(FindRange(maps, j.src, j.src + j.n).value, j.dest, j.src);
      InsertKeys(v, a);
      CopyGoesTo(FindRange(maps, j.src, j.src + j.n).value, j.dest, j.src);
      IsOnPage(a);
      Trace.EnoughKept(free, v, free', Insert(v, a), pages, PageNum(j.dest));
    }
  }

  lemma ViewIs(maps: Tree<FileMap>, v: View, j: Job)
    ensures MemcpyView(maps, v, j.dest, j.src, j.n) == match FindRange(maps, j.src, j.src + j.n)
                                                       case None => v
                                                       case Some(m) => Insert(v, CopyRecord(m, j.dest, j.src))
  {
  }

  lemma InsertKeys(v: View, a: Arrival)
    ensures Insert(v, a).Keys == v.Keys + {a.Page()}
  {
  }

  // ---- With a move in between -------------------------------------------------------------------

  /** Copy in, move, write out. The page copied to first must keep to one block, and so must the
      other pages that are moved from. */
  method CopyMoveWrite(lib: Library, d1: nat, d2: nat, src: nat, n: nat)
    requires Usable(lib) && Copyable(lib, src, n)
    requires Disjoint(d1, src, n) && Disjoint(d2, src, n) && TracedSpec.Separate(d2, d1, n)
    requires lib.index.RoomFor({PageNum(d1)} + lib.DestPages(d2, d1, n))
    requires var v := MemcpyView(lib.fileMapTree, lib.index.Contents(), d1, src, n);
      forall p :: PageNum(d1) <= p <= PageNum(d1 + n) ==> |Recs(v, p)| <= MEMRECPERENTRY
    requires d2 + n < TWO64
    modifies lib, lib.index, lib.index.Repr
    ensures Usable(lib) && MappingsKept(lib)
    ensures lib.mem == Copied(Copied(old(lib.mem), d1, src, n), d2, d1, n)
    ensures lib.index.Contents()
      == TracedSpec.MemcpyTraced(MemcpyView(lib.fileMapTree, old(lib.index.Contents()), d1, src, n), d2, d1, n)
    ensures NoAlarms(lib, n) ==> lib.sameSize == old(lib.sameSize) + n
  {
    hide Trace.Index.Valid, Trace.Index.Contents, Trace.Index.RoomFor, WellFormed, Registered, Copyable;
    hide Fwrite, InOrder, Copied, MemcpyView, TracedSpec.MemcpyTraced, TracedSpec.Separate, TracedSpec.LastDestPage;
    ghost var e, v, maps := lib.Now(), lib.index.Contents(), lib.fileMapTree;
    CopyableIs(lib, src, n);
    CopyForMove(lib, d1, d2, src, n);
    TracedSpec.TracedCopy(lib.index.Contents(), d2, d1, n, 0);
    lib.MemcpyTraced(d2, d1, n);
    lib.Fwrite(d2, 1, n);
    MovedCopyCounts(e, maps, v, d1, d2, src, n);
  }

  lemma CopyableIs(lib: Library, src: nat, n: nat)
    requires Copyable(lib, src, n)
    ensures Inside(InOrder(lib.fileMapTree), src, n) && !Clash(InOrder(lib.fileMapTree), src, n)
  {
  }

  /** The copy before a move: its page is not empty afterwards, and there is room for the pages it is
      moved to. */
  method CopyForMove(lib: Library, d1: nat, d2: nat, src: nat, n: nat)
    requires Usable(lib) && Copyable(lib, src, n) && Disjoint(d1, src, n)
    requires lib.index.RoomFor({PageNum(d1)} + lib.DestPages(d2, d1, n))
    modifies lib`mem, lib.index, lib.index.Repr
    ensures Usable(lib) && fresh(lib.index.Repr - old(lib.index.Repr)) && lib.mem == Copied(old(lib.mem), d1, src, n)
    ensures lib.index.Contents() == MemcpyView(lib.fileMapTree, old(lib.index.Contents()), d1, src, n)
    ensures lib.index.RoomFor(lib.DestPages(d2, d1, n))
    ensures PageNum(d1) in lib.index.Contents() && lib.index.Contents()[PageNum(d1)] != []
  {
    hide Trace.Index.Valid, Trace.Index.Contents, Trace.Index.RoomFor, Trace.Enough, WellFormed, Registered, Insert;
    hide Inside, Clash, InOrder, Copied, MemcpyView, FindRange;
    ghost var v, free, maps := lib.index.Contents(), |lib.index.nodePool.free|, lib.fileMapTree;
    ghost var pages := lib.DestPages(d2, d1, n);
    RegisteredIsDisjoint(InOrder(maps), lib.fileMapNameTree);
    FoundMapping(maps, src, n);
    ghost var f := FindRange(maps, src, src + n).value;
    FoundView(maps, v, f, d1, src, n);
    lib.index.RoomForOne({PageNum(d1)} + pages, PageNum(d1));
    lib.index.RoomIs({PageNum(d1)} + pages);
    Memcpy(lib, d1, src, n);
    CopyLeavesRoom(free, v, |lib.index.nodePool.free|, lib.index.Contents(), CopyRecord(f, d1, src), pages);
    lib.index.RoomIs(pages);
  }

  /** After the copy there is room for the pages it is moved to, and its page is not empty. */
  lemma CopyLeavesRoom(free: nat, v: View, free': nat, v': View, a: Arrival, pages: set<nat>)
    requires Trace.Enough(free, v.Keys, {a.Page()} + pages) && v' == Insert(v, a)
    requires free' + |v'| == free + |v|
    ensures Trace.Enough(free', v'.Keys, pages) && a.Page() in v' && v'[a.Page()] != []
  {
    hide Trace.Enough;
    Trace.EnoughKept(free, v, free', v', {a.Page()} + pages, a.Page());
    Trace.EnoughForFewer(free', v'.Keys, {a.Page()} + pages, pages);
  }

  // ---- From the start ----------------------------------------------------------------------------

  /** Mappings that can be made one after the other: apart, and under different names. */
  ghost predicate Mappable(files: seq<FileMap>) {
    && (forall m :: m in files ==> InSpace(m) && m.fd >= 0)
    && (forall i, j :: 0 <= i < j < |files| ==>
          && (files[i].tail <= files[j].start || files[j].tail <= files[i].start)
          && files[i].fileName != files[j].fileName)
  }

  /** init, ts_mmap of any number of files, and any run of copies out of them, each written out, as long
      as no other mapping clashes with a source, and the pages copied to are no more than the pool has
      nodes for. */
  method MapCopyWrite(comparer: Comparer, mem: Mem, files: seq<FileMap>, jobs: seq<Job>) returns (lib: Library)
    requires Mappable(files) && |Pages(jobs)| <= Trace.RECTREENODEPOOLSIZE - Trace.RECTREENODETHRESHOLD
    requires forall j :: j in jobs ==>
      && Inside(files, j.src, j.n) && !Clash(files, j.src, j.n)
      && Disjoint(j.dest, j.src, j.n) && j.dest + j.n < TWO64
    ensures Usable(lib) && lib.comparer == comparer
    ensures (forall j :: j in jobs ==> NoAlarms(lib, j.n)) ==> lib.sameSize == Sum(jobs)
  {
    hide Usable, Copyable, Trace.Index.RoomFor, Mappable;
    lib := Started(comparer, mem, jobs);
    NothingMapped(lib.fileMapTree);
    MapAll(lib, files, Pages(jobs));
    forall j | j in jobs
      ensures Doable(lib, j)
    {
      JobDoable(lib, files, j);
    }
    CopyWriteAll(lib, jobs);
  }

  lemma JobDoable(lib: Library, files: seq<FileMap>, j: Job)
    requires forall o :: o in InOrder(lib.fileMapTree) <==> o in files
    requires Inside(files, j.src, j.n) && !Clash(files, j.src, j.n)
    requires Disjoint(j.dest, j.src, j.n) && j.dest + j.n < TWO64
    ensures Doable(lib, j)
  {
    var m :| m in files && m.start <= j.src && j.src + j.n <= m.tail;
    assert m in InOrder(lib.fileMapTree);
  }

  /** init */
  method Started(comparer: Comparer, mem: Mem, ghost jobs: seq<Job>) returns (lib: Library)
    requires |Pages(jobs)| <= Trace.RECTREENODEPOOLSIZE - Trace.RECTREENODETHRESHOLD
    ensures fresh(lib) && fresh(lib.index) && fresh(lib.index.Repr) && lib.comparer == comparer && lib.sameSize == 0
    ensures Usable(lib) && lib.index.RoomFor(Pages(jobs))
    ensures lib.fileMapTree == Leaf && lib.fileMapNameTree == Leaf
  {
    hide Trace.Index.Valid, Trace.Index.Contents, Trace.Index.RoomFor, Registered, Pages;
    var index := new Trace.Index();
    index.RoomIs(Pages(jobs));
    index.SupplyOf();
    lib := new Library(index, comparer, mem);
    NothingMapped(lib.fileMapTree);
  }

  lemma NothingMapped(t: Tree<FileMap>)
    requires t == Leaf
    ensures InOrder(t) == [] && Registered([], t)
  {
  }

  /** The files meet no mapping there is, and have other names. */
  ghost predicate Beside(maps: Tree<FileMap>, names: Tree<FileMap>, files: seq<FileMap>) {
    && (forall o, m :: o in InOrder(maps) && m in files ==> o.tail <= m.start || m.tail <= o.start)
    && (forall o, m :: o in InOrder(names) && m in files ==> o.fileName != m.fileName)
  }

  /** ts_mmap of all files. */
  method MapAll(lib: Library, files: seq<FileMap>, ghost pages: set<nat>)
    requires Usable(lib) && lib.index.RoomFor(pages) && Mappable(files)
    requires Beside(lib.fileMapTree, lib.fileMapNameTree, files)
    modifies lib`fileMapTree, lib`fileMapNameTree, lib`openFileArray
    ensures Usable(lib) && lib.index.RoomFor(pages) && lib.index.Contents() == old(lib.index.Contents())
    ensures forall o :: o in InOrder(lib.fileMapTree) <==> o in files || o in old(InOrder(lib.fileMapTree))
    ensures forall o :: o in InOrder(lib.fileMapNameTree) <==> o in files || o in old(InOrder(lib.fileMapNameTree))
    ensures forall k :: k in old(lib.openFileArray) && (forall m :: m in files ==> m.fd % MAX_FILE_NUM != k) ==>
      k in lib.openFileArray && lib.openFileArray[k] == old(lib.openFileArray)[k]
  {
    hide Usable, Trace.Index.RoomFor, Trace.Index.Contents, Registered, Fits, InOrder, Mappable, Beside;
    ghost var maps, names := lib.fileMapTree, lib.fileMapNameTree;
    IsRegistered(lib);
    for i := 0 to |files|
      invariant Usable(lib) && lib.index.RoomFor(pages) && lib.index.Contents() == old(lib.index.Contents())
      invariant forall o :: o in InOrder(lib.fileMapTree) <==> o in files[..i] || o in InOrder(maps)
      invariant forall o :: o in InOrder(lib.fileMapNameTree) <==> o in files[..i] || o in InOrder(names)
      invariant forall k :: k in old(lib.openFileArray) && (forall m :: m in files ==> m.fd % MAX_FILE_NUM != k) ==>
        k in lib.openFileArray && lib.openFileArray[k] == old(lib.openFileArray)[k]
    {
      var m := files[i];
      assert m in files;
      NextFits(files, i, maps, names, lib.fileMapTree, lib.fileMapNameTree);
      MapOne(lib, m, pages);
      assert files[..i + 1] == files[..i] + [m];
    }
    assert files[..|files|] == files;
  }

  lemma NextFits(files: seq<FileMap>, i: nat, maps: Tree<FileMap>, names: Tree<FileMap>,
                 maps': Tree<FileMap>, names': Tree<FileMap>)
    requires Mappable(files) && i < |files| && Beside(maps, names, files)
    requires forall o :: o in InOrder(maps') <==> o in files[..i] || o in InOrder(maps)
    requires forall o :: o in InOrder(names') <==> o in files[..i] || o in InOrder(names)
    ensures Fits(InOrder(maps'), names', files[i]) && files[i].fd >= 0 && files[i].start < files[i].tail
  {
    hide InOrder, FindName;
    assert files[i] in files;
    forall o | o in files[..i]
      ensures o.fileName != files[i].fileName && (o.tail <= files[i].start || files[i].tail <= o.start)
    {
      var j :| 0 <= j < i && files[j] == o;
    }
    NameIsNew(names', files[i].fileName);
  }

  /** ts_mmap of one file. */
  method MapOne(lib: Library, m: FileMap, ghost pages: set<nat>)
    requires Usable(lib) && lib.index.RoomFor(pages)
    requires Fits(InOrder(lib.fileMapTree), lib.fileMapNameTree, m) && m.fd >= 0 && m.start < m.tail
    modifies lib`fileMapTree, lib`fileMapNameTree, lib`openFileArray
    ensures Usable(lib) && lib.index.RoomFor(pages) && lib.index.Contents() == old(lib.index.Contents())
    ensures forall o :: o in InOrder(lib.fileMapTree) <==> o == m || o in old(InOrder(lib.fileMapTree))
    ensures forall o :: o in InOrder(lib.fileMapNameTree) <==> o == m || o in old(InOrder(lib.fileMapNameTree))
    ensures lib.openFileArray == old(lib.openFileArray)[m.fd % MAX_FILE_NUM := m]
  {
    hide Trace.Index.Valid, Trace.Index.Contents, Trace.Index.RoomFor, WellFormed, Registered, Fits, InOrder;
    lib.index.SupplyOf();
    lib.Mmap(m.start, m.tail - m.start, m.fileName, m.offset, m.fd);
  }
}
