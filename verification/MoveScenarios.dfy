/** Any number of copies out of mapped files, moved together and written out, on the heap. */
module MoveScenarios {
  import opened Addr
  import opened Bst
  import opened Cidl
  import opened EndToEnd
  import opened FileMaps
  import opened MatchSpec
  import opened Memory
  import opened MovedRuns
  import opened Scenarios
  import opened SeamRuns
  import opened TraceSpec
  import Trace
  import TracedSpec

  /** The record of a copy, and the source it is to lead back to. */
  function CopyOf(maps: Tree<FileMap>, j: Job): Copy {
    match FindRange(maps, j.src, j.src + j.n)
    case None => Copy(Arrival(j.dest, 0, 0, 0), j.n, None)
    case Some(m) => Copy(CopyRecord(m, j.dest, j.src), j.n, Some(j.src))
  }

  function CopiesOf(maps: Tree<FileMap>, jobs: seq<Job>): (cs: seq<Copy>)
    ensures |cs| == |jobs|
  {
    seq(|jobs|, i requires 0 <= i < |jobs| => CopyOf(maps, jobs[i]))
  }

  function CopiedAll(mem: Mem, jobs: seq<Job>): Mem {
    if jobs == [] then mem
    else Copied(CopiedAll(mem, jobs[..|jobs| - 1]), jobs[|jobs| - 1].dest, jobs[|jobs| - 1].src, jobs[|jobs| - 1].n)
  }

  /** Copies side by side in the n bytes from buf on, each out of a mapping that nothing clashes with. */
  ghost predicate Filled(maps: Tree<FileMap>, jobs: seq<Job>, buf: nat, n: nat) {
    && jobs != [] && jobs[0].dest == buf && n == Sum(jobs)
    && (forall i :: 0 <= i < |jobs| ==> FitJob(maps, jobs[i]))
    && (forall i :: 0 < i < |jobs| ==> jobs[i].dest == jobs[i - 1].dest + jobs[i - 1].n)
  }

  ghost predicate FitJob(maps: Tree<FileMap>, j: Job) {
    j.n > 0 && Inside(InOrder(maps), j.src, j.n) && !Clash(InOrder(maps), j.src, j.n) && Disjoint(j.dest, j.src, j.n)
  }

  // ---- The records ---------------------------------------------------------------------------------

  lemma LeadsBack(e: Env, maps: Tree<FileMap>, j: Job)
    requires Registered(InOrder(maps), e.names) && FitJob(maps, j)
    ensures var c := CopyOf(maps, j);
      c.from == Some(j.src) == FileAddress(e, c.a.Rec()) && c.a.dest == j.dest && c.n == j.n
    ensures FindRange(maps, j.src, j.src + j.n).Some?
    ensures CopyOf(maps, j).a == CopyRecord(FindRange(maps, j.src, j.src + j.n).value, j.dest, j.src)
  {
    hide Registered, Inside, Clash, InOrder, FindRange, FindName, FileAddress, U64;
    var f := FoundUsable(maps, e.names, j.src, j.n);
    ClashIs(InOrder(maps), j.src, j.n, f);
    RecordPointsBack(e, f, f, j.dest, j.src);
  }

  lemma {:induction false} PlaceOf(maps: Tree<FileMap>, jobs: seq<Job>, buf: nat, k: nat)
    requires jobs != [] && jobs[0].dest == buf && k <= |jobs|
    requires forall i :: 0 < i < |jobs| ==> jobs[i].dest == jobs[i - 1].dest + jobs[i - 1].n
    ensures k < |jobs| ==> jobs[k].dest == buf + Sum(jobs[..k])
    ensures k == |jobs| ==> jobs[k - 1].dest + jobs[k - 1].n == buf + Sum(jobs)
  {
    if k > 0 {
      PlaceOf(maps, jobs, buf, k - 1);
      OneMoreJob(jobs, k - 1);
    }
    assert jobs[..|jobs|] == jobs;
  }

  lemma CopiesFill(e: Env, maps: Tree<FileMap>, jobs: seq<Job>, buf: nat, n: nat)
    requires Registered(InOrder(maps), e.names) && Filled(maps, jobs, buf, n)
    ensures var cs := CopiesOf(maps, jobs);
      && InRow(e, cs) && SideBySide(cs) && cs[0].a.dest == buf && End(cs) == buf + n
      && forall i :: 0 <= i < |cs| ==> buf <= cs[i].a.dest <= buf + n
  {
    hide Registered, Inside, Clash, InOrder, FileAddress, CopyOf, Sum;
    var cs := CopiesOf(maps, jobs);
    forall i | 0 <= i < |cs|
      ensures cs[i].from == FileAddress(e, cs[i].a.Rec()) && cs[i].a.dest == jobs[i].dest && cs[i].n == jobs[i].n > 0
    {
      LeadsBack(e, maps, jobs[i]);
    }
    PlaceOf(maps, jobs, buf, |jobs|);
    assert SideBySide(cs);
    forall i, j | 0 <= i < j < |cs|
      ensures cs[i].a.dest < cs[j].a.dest
    {
      EndsAscend(cs, i, j);
    }
    forall i | 0 <= i < |cs|
      ensures buf <= cs[i].a.dest <= buf + n
    {
      EndsAscend(cs, 0, i);
      EndsAscend(cs, i, |cs| - 1);
    }
  }

  lemma OneMoreCopy(v: View, maps: Tree<FileMap>, jobs: seq<Job>, k: nat)
    requires k < |jobs| && FindRange(maps, jobs[k].src, jobs[k].src + jobs[k].n).Some?
    ensures var w := InsertAll(v, Arrivals(CopiesOf(maps, jobs[..k])));
      InsertAll(v, Arrivals(CopiesOf(maps, jobs[..k + 1]))) == MemcpyView(maps, w, jobs[k].dest, jobs[k].src, jobs[k].n)
  {
    hide FindRange, Insert, CopyRecord, InsertAll;
    var s := Arrivals(CopiesOf(maps, jobs[..k]));
    var a := CopyOf(maps, jobs[k]).a;
    assert Arrivals(CopiesOf(maps, jobs[..k + 1])) == s + [a];
    InsertAllOneMore(v, s, a);
  }

  lemma OneMoreCopied(mem: Mem, jobs: seq<Job>, k: nat)
    requires k < |jobs|
    ensures CopiedAll(mem, jobs[..k + 1]) == Copied(CopiedAll(mem, jobs[..k]), jobs[k].dest, jobs[k].src, jobs[k].n)
  {
    hide Copied;
    assert jobs[..k + 1][..k] == jobs[..k];
  }

  lemma NoneCopied(v: View, maps: Tree<FileMap>, mem: Mem, jobs: seq<Job>)
    ensures jobs[..0] == [] && InsertAll(v, Arrivals(CopiesOf(maps, jobs[..0]))) == v
    ensures CopiedAll(mem, jobs[..0]) == mem
  {
  }

  // ---- The copies ----------------------------------------------------------------------------------

  /** ts_memcpy of all of them. */
  method CopyAll(lib: Library, jobs: seq<Job>, ghost pages: set<nat>)
    requires Usable(lib) && lib.index.RoomFor(pages)
    requires forall i :: 0 <= i < |jobs| ==> FitJob(lib.fileMapTree, jobs[i]) && PageNum(jobs[i].dest) in pages
    modifies lib`mem, lib.index, lib.index.Repr
    ensures Usable(lib) && fresh(lib.index.Repr - old(lib.index.Repr)) && lib.index.RoomFor(pages)
    ensures lib.mem == CopiedAll(old(lib.mem), jobs) && MappingsKept(lib)
    ensures lib.index.Contents() == InsertAll(old(lib.index.Contents()), Arrivals(CopiesOf(lib.fileMapTree, jobs)))
  {
    hide Usable, FitJob, Trace.Index.RoomFor, Trace.Index.Contents, CopiedAll, Copied, InsertAll, CopiesOf, Arrivals;
    hide Registered, InOrder, FindRange, MemcpyView, Disjoint;
    ghost var e, v, maps := lib.Now(), lib.index.Contents(), lib.fileMapTree;
    NoneCopied(v, maps, lib.mem, jobs);
    IsRegistered(lib);
    for i := 0 to |jobs|
      invariant Usable(lib) && fresh(lib.index.Repr - old(lib.index.Repr)) && lib.index.RoomFor(pages)
      invariant lib.mem == CopiedAll(old(lib.mem), jobs[..i]) && MappingsKept(lib)
      invariant lib.index.Contents() == InsertAll(v, Arrivals(CopiesOf(maps, jobs[..i])))
    {
      label L:
      var j := jobs[i];
      assert FitJob(maps, j) && PageNum(j.dest) in pages;
      FitFound(e, maps, j);
      OneMoreCopy(v, maps, jobs, i);
      CopyNext(lib, j, pages);
      OneMoreCopied(old(lib.mem), jobs, i);
      forall o | o in lib.index.Repr && o !in old(lib.index.Repr)
        ensures fresh(o)
      {
        assert o !in old@L(lib.index.Repr) ==> fresh@L(o);
      }
    }
    assert jobs[..|jobs|] == jobs;
  }

  lemma FitFound(e: Env, maps: Tree<FileMap>, j: Job)
    requires Registered(InOrder(maps), e.names) && FitJob(maps, j)
    ensures FindRange(maps, j.src, j.src + j.n).Some? && Disjoint(j.dest, j.src, j.n)
  {
    hide *;
    LeadsBack(e, maps, j);
    FitIs(maps, j);
  }

  lemma FitIs(maps: Tree<FileMap>, j: Job)
    requires FitJob(maps, j)
    ensures Disjoint(j.dest, j.src, j.n)
  {
  }

  method CopyNext(lib: Library, j: Job, ghost pages: set<nat>)
    requires Usable(lib) && lib.index.RoomFor(pages) && Disjoint(j.dest, j.src, j.n) && PageNum(j.dest) in pages
    modifies lib`mem, lib.index, lib.index.Repr
    ensures Usable(lib) && fresh(lib.index.Repr - old(lib.index.Repr)) && lib.index.RoomFor(pages)
    ensures lib.mem == Copied(old(lib.mem), j.dest, j.src, j.n) && MappingsKept(lib)
    ensures lib.index.Contents() == MemcpyView(lib.fileMapTree, old(lib.index.Contents()), j.dest, j.src, j.n)
  {
    hide *;
    ghost var w, free := lib.index.Contents(), |lib.index.nodePool.free|;
    IsRegistered(lib);
    lib.index.RoomForOne(pages, PageNum(j.dest));
    lib.index.RoomIs(pages);
    Memcpy(lib, j.dest, j.src, j.n);
    IsRegistered(lib);
    CopyKeepsRoom(lib.fileMapTree, w, free, |lib.index.nodePool.free|, j, pages);
    lib.index.RoomIs(pages);
  }

  // ---- The move and the write ------------------------------------------------------------------------

  /** Copies side by side, moved together by ts_memcpy_traced and written from d2: each is compared with its
      own source, as far as the looking from copy to copy comes; so all bytes count when every comparison
      ends where its copy ends and every copy starts on the page of the one before or at the start of a
      page. The pages copied to first must keep to one block. */
  method CopiesMoveWrite(lib: Library, jobs: seq<Job>, d1: nat, d2: nat, n: nat)
    requires Usable(lib) && Filled(lib.fileMapTree, jobs, d1, n)
    requires TracedSpec.Separate(d2, d1, n) && d2 + n < TWO64
    requires OldInFront(lib.index.Contents(), d1, d1 + n) && OldInFront(lib.index.Contents(), d2, d2 + n)
    requires lib.index.RoomFor(Pages(jobs) + lib.DestPages(d2, d1, n))
    requires var w := InsertAll(lib.index.Contents(), Arrivals(CopiesOf(lib.fileMapTree, jobs)));
      forall p :: PageNum(d1) <= p <= PageNum(d1 + n) ==> |Recs(w, p)| <= MEMRECPERENTRY
    modifies lib, lib.index, lib.index.Repr
    ensures Usable(lib) && MappingsKept(lib)
    ensures lib.mem == Copied(CopiedAll(old(lib.mem), jobs), d2, d1, n)
    ensures var moved := CopiesOf(lib.fileMapTree, MovedJobs(jobs, d1, d2));
      && lib.sameSize == old(lib.sameSize) + LookAll(lib.Now(), d2 + n, moved, |moved|).count
      && (moved != [] && StopsAtSeams(lib.Now(), moved) ==> lib.sameSize == old(lib.sameSize) + n)
  {
    hide Usable, Trace.Index.Valid, Trace.Index.Contents, Trace.Index.RoomFor, WellFormed, Registered, Filled, InOrder;
    hide CopiesOf, Arrivals, InsertAll, Copied, CopiedAll, MovedJobs, MatchSpec.Total, MatchSpec.Fwrite, LookAll, Pages;
    hide TracedSpec.MemcpyTraced, TracedSpec.Separate, OldInFront, StopsAtSeams, FitJob, Library.DestPages, Recs;
    hide Trace.Enough;
    ghost var v, maps := lib.index.Contents(), lib.fileMapTree;
    ghost var pages := Pages(jobs) + lib.DestPages(d2, d1, n);
    UsableIs(lib);
    JobsFit(maps, jobs, d1, n);
    CopyAll(lib, jobs, pages);
    UsableIs(lib);
    lib.index.RoomIs(pages);
    Trace.EnoughForFewer(|lib.index.nodePool.free|, lib.index.Contents().Keys, pages, lib.DestPages(d2, d1, n));
    lib.index.RoomIs(lib.DestPages(d2, d1, n));
    FirstIsThere(lib.Now(), maps, v, jobs, d1, n);
    MoveWrite(lib, d1, d2, n);
    MovedJobsCount(lib.Now(), maps, v, jobs, d1, d2, n);
  }

  /** The move and the write. */
  method MoveWrite(lib: Library, d1: nat, d2: nat, n: nat)
    requires Usable(lib) && TracedSpec.Separate(d2, d1, n) && d2 + n < TWO64
    requires lib.index.RoomFor(lib.DestPages(d2, d1, n))
    requires forall p :: PageNum(d1) <= p <= PageNum(d1 + n) ==> |Recs(lib.index.Contents(), p)| <= MEMRECPERENTRY
    requires PageNum(d1) in lib.index.Contents() ==> lib.index.Contents()[PageNum(d1)] != []
    modifies lib, lib.index, lib.index.Repr
    ensures Usable(lib) && MappingsKept(lib) && lib.mem == Copied(old(lib.mem), d2, d1, n)
    ensures var w := TracedSpec.MemcpyTraced(old(lib.index.Contents()), d2, d1, n);
      lib.sameSize == old(lib.sameSize) + Total(Fwrite(lib.Now(), w, d2, n).hits)
    ensures lib.Now().names == old(lib.Now().names)
  {
    hide Trace.Index.Valid, Trace.Index.Contents, Trace.Index.RoomFor, WellFormed, Registered, InOrder;
    hide Fwrite, Copied, TracedSpec.MemcpyTraced, TracedSpec.Separate, TracedSpec.LastDestPage, MatchSpec.Total;
    hide Library.DestPages, Recs, PageNum;
    MovedWellFormed(lib.index.Contents(), d1, d2, n);
    lib.MemcpyTraced(d2, d1, n);
    lib.Fwrite(d2, 1, n);
  }

  lemma MovedWellFormed(v: View, d1: nat, d2: nat, n: nat)
    requires WellFormed(v) && TracedSpec.Separate(d2, d1, n)
    ensures WellFormed(TracedSpec.MemcpyTraced(v, d2, d1, n))
  {
    hide *;
    TracedSpec.TracedCopy(v, d2, d1, n, 0);
  }

  lemma UsableIs(lib: Library)
    requires Usable(lib)
    ensures lib.index.Valid() && lib !in lib.index.Repr && WellFormed(lib.index.Contents())
    ensures Registered(InOrder(lib.fileMapTree), lib.fileMapNameTree) && lib.Now().names == lib.fileMapNameTree
  {
  }

  lemma JobsFit(maps: Tree<FileMap>, jobs: seq<Job>, buf: nat, n: nat)
    requires Filled(maps, jobs, buf, n)
    ensures forall i :: 0 <= i < |jobs| ==> FitJob(maps, jobs[i]) && PageNum(jobs[i].dest) in Pages(jobs)
  {
    hide FitJob;
  }

  lemma FirstIsThere(e: Env, maps: Tree<FileMap>, v: View, jobs: seq<Job>, buf: nat, n: nat)
    requires Registered(InOrder(maps), e.names) && Filled(maps, jobs, buf, n) && OldInFront(v, buf, buf + n)
    ensures var w := InsertAll(v, Arrivals(CopiesOf(maps, jobs)));
      PageNum(buf) in w ==> w[PageNum(buf)] != []
  {
    hide *;
    var cs := CopiesOf(maps, jobs);
    CopiesFill(e, maps, jobs, buf, n);
    InBytesIs(v, cs, buf, n);
    InRowIs(e, cs);
    OneOf(cs, 0);
    PagesOf(cs, buf, n);
    RunRecords(e, v, cs, buf, n, PageNum(buf), cs[0].a.Rec());
    RecsAre(InsertAll(v, Arrivals(cs)), PageNum(buf));
  }

  lemma PagesOf(cs: seq<Copy>, buf: nat, n: nat)
    requires cs != [] && cs[0].a.dest == buf
    ensures cs[0].a.Page() == PageNum(buf) <= PageNum(buf + n)
  {
  }

  lemma RecsAre(v: View, page: nat)
    ensures page in v ==> Recs(v, page) == v[page]
  {
  }

  /** The same copies, as if they had been made where they are moved to. */
  function MovedJobs(jobs: seq<Job>, d1: nat, d2: nat): seq<Job> {
    seq(|jobs|, i requires 0 <= i < |jobs| =>
      jobs[i].(dest := d2 + if jobs[i].dest >= d1 then jobs[i].dest - d1 else 0))
  }

  /** Moving the records of copies gives the records that the same copies would have made at the new place. */
  lemma ShiftIsMoved(maps: Tree<FileMap>, jobs: seq<Job>, d1: nat, d2: nat)
    requires forall i :: 0 <= i < |jobs| ==> jobs[i].dest >= d1
    ensures forall i :: 0 <= i < |jobs| ==> CopiesOf(maps, jobs)[i].a.dest >= d1
    ensures Shift(CopiesOf(maps, jobs), d1, d2) == CopiesOf(maps, MovedJobs(jobs, d1, d2))
  {
    hide FindRange, U64;
  }

  lemma JobsBehind(e: Env, maps: Tree<FileMap>, jobs: seq<Job>, buf: nat, n: nat)
    requires Registered(InOrder(maps), e.names) && Filled(maps, jobs, buf, n)
    ensures jobs != [] && forall i :: 0 <= i < |jobs| ==> jobs[i].dest >= buf
  {
    hide *;
    CopiesFill(e, maps, jobs, buf, n);
    JobsFit(maps, jobs, buf, n);
    forall i | 0 <= i < |jobs|
      ensures jobs[i].dest >= buf
    {
      LeadsBack(e, maps, jobs[i]);
      CopyAt(maps, jobs, i);
    }
    InRowIs(e, CopiesOf(maps, jobs));
  }

  lemma CopyAt(maps: Tree<FileMap>, jobs: seq<Job>, i: nat)
    requires i < |jobs|
    ensures CopiesOf(maps, jobs)[i] == CopyOf(maps, jobs[i])
  {
  }

  lemma MovedJobsCount(e: Env, maps: Tree<FileMap>, v: View, jobs: seq<Job>, d1: nat, d2: nat, n: nat)
    requires Registered(InOrder(maps), e.names) && Filled(maps, jobs, d1, n) && WellFormed(v)
    requires TracedSpec.Separate(d2, d1, n) && OldInFront(v, d1, d1 + n) && OldInFront(v, d2, d2 + n)
    ensures var moved := CopiesOf(maps, MovedJobs(jobs, d1, d2));
      var w := TracedSpec.MemcpyTraced(InsertAll(v, Arrivals(CopiesOf(maps, jobs))), d2, d1, n);
      && Total(Fwrite(e, w, d2, n).hits) == LookAll(e, d2 + n, moved, |moved|).count
      && (moved != [] && StopsAtSeams(e, moved) ==> Total(Fwrite(e, w, d2, n).hits) == n)
  {
    hide *;
    var cs := CopiesOf(maps, jobs);
    CopiesFill(e, maps, jobs, d1, n);
    InRowIs(e, cs);
    InBytesIs(v, cs, d1, n);
    MovedRunCounts(e, v, cs, d1, d2, n);
    ShiftStarts(e, cs, d1, d2);
    JobsBehind(e, maps, jobs, d1, n);
    ShiftIsMoved(maps, jobs, d1, d2);
    ShiftSideBySide(cs, d1, d2);
    var moved := Shift(cs, d1, d2);
    if StopsAtSeams(e, moved) {
      LooksAtAll(e, moved, |cs|);
      EndIs(moved);
    }
  }
}
