/** Files that are mapped, read with ts_read, and written out, on the heap. */
module ReadScenarios {
  import opened Addr
  import opened Bst
  import opened Cidl
  import opened EndToEnd
  import opened FileMaps
  import opened MatchSpec
  import opened Memory
  import opened Scenarios
  import opened TraceSpec
  import ReadSpec
  import Trace

  /** ts_read of a file that is registered and whose mapping is in the open-file slot. */
  method ReadMapped(lib: Library, m: FileMap, buf: nat, nbytes: nat) returns (copied: nat)
    requires Usable(lib) && lib.index.Room(PageNum(buf)) && m in InOrder(lib.fileMapTree) && m.fd >= 0
    requires m.fd % MAX_FILE_NUM in lib.openFileArray && lib.openFileArray[m.fd % MAX_FILE_NUM] == m
    requires m.fd in lib.cursors && m.offset <= lib.cursors[m.fd] <= m.offset + (m.tail - m.start)
    requires buf + nbytes <= m.start || m.tail <= buf
    modifies lib`mem, lib`cursors, lib.index, lib.index.Repr
    ensures Usable(lib) && fresh(lib.index.Repr - old(lib.index.Repr))
    ensures var left := m.offset + (m.tail - m.start) - old(lib.cursors)[m.fd];
      copied == if left < nbytes then left else nbytes
    ensures var cursor := old(lib.cursors)[m.fd];
      && lib.mem == Copied(old(lib.mem), buf, m.start + (cursor - m.offset), copied)
      && lib.cursors == old(lib.cursors)[m.fd := cursor + copied]
      && lib.index.Contents() == Insert(old(lib.index.Contents()), Arrival(buf, cursor, m.fileName, m.fd))
  {
    hide Trace.Index.Valid, Trace.Index.Contents, WellFormed, Registered, InOrder, FindName, ReadSpec.Read;
    hide ReadSpec.CopyLen, ReadSpec.CopyBegin, Copied, Insert, CopyRecord;
    ghost var v, r := lib.index.Contents(), ReadSpec.Reader(lib.mem, lib.cursors[m.fd], lib.index.Contents());
    ReadFacts(lib.fileMapTree, lib.fileMapNameTree, m, r, buf, nbytes);
    var some := lib.Read(m.fd, m.fileName, buf, nbytes);
    copied := some.value;
    InsertKeepsWellFormed(v, Arrival(buf, r.cursor, m.fileName, m.fd));
  }

  /** What one read of the specification is, for a registered mapping with the cursor inside. */
  lemma ReadFacts(maps: Tree<FileMap>, names: Tree<FileMap>, m: FileMap, r: ReadSpec.Reader, buf: nat, nbytes: nat)
    requires Registered(InOrder(maps), names) && m in InOrder(maps)
    requires m.offset <= r.cursor <= m.offset + (m.tail - m.start)
    requires buf + nbytes <= m.start || m.tail <= buf
    ensures FindName(names, m.fileName) == Some(m)
    ensures var src, left := m.start + (r.cursor - m.offset), m.offset + (m.tail - m.start) - r.cursor;
      var n := if left < nbytes then left else nbytes;
      && ReadSpec.CopyBegin(m, r.cursor) == src && ReadSpec.CopyLen(m, r.cursor, nbytes) == n
      && (buf + n <= src || src + n <= buf)
      && ReadSpec.Read(m, Some(m), r, ReadSpec.Request(buf, nbytes))
         == ReadSpec.Reader(Copied(r.mem, buf, src, n), r.cursor + n,
                            Insert(r.view, Arrival(buf, r.cursor, m.fileName, m.fd)))
  {
    hide InOrder, FindName, Copied, Insert, NamesAscend, DisjointMappings;
    assert InSpace(m) && m in InOrder(names);
    FindNameExact(names, m);
    ReadIsCopy(r, m, buf, nbytes);
    ReadSpec.RecordAtCursor(m, r, ReadSpec.Request(buf, nbytes));
  }

  /** ts_mmap of m and then of other files, on other descriptors below 1024; ts_read of m's descriptor, which
      stands anywhere in m; ts_fwrite of what has been read. The record is for m, at the cursor, and all that
      was read counts. */
  method MapReadWrite(lib: Library, m: FileMap, others: seq<FileMap>, cursor: nat, buf: nat, nbytes: nat)
    returns (copied: nat)
    requires Usable(lib) && lib.index.RoomFor({PageNum(buf)})
    requires Mappable([m] + others) && Beside(lib.fileMapTree, lib.fileMapNameTree, [m] + others)
    requires m.fd < 1024 && forall o :: o in others ==> o.fd < 1024 && o.fd != m.fd
    requires m.offset <= cursor <= m.offset + (m.tail - m.start)
    requires (buf + nbytes <= m.start || m.tail <= buf) && buf + nbytes < TWO64
    modifies lib, lib.index, lib.index.Repr
    ensures Usable(lib)
    ensures var left := m.offset + (m.tail - m.start) - cursor;
      copied == if left < nbytes then left else nbytes
    ensures lib.index.Contents() == Insert(old(lib.index.Contents()), Arrival(buf, cursor, m.fileName, m.fd))
    ensures lib.mem == Copied(old(lib.mem), buf, m.start + (cursor - m.offset), copied)
    ensures lib.cursors == old(lib.cursors)[m.fd := cursor + copied]
    ensures NoAlarms(lib, copied) ==> lib.sameSize == old(lib.sameSize) + copied
  {
    hide Trace.Index.Valid, Trace.Index.Contents, Trace.Index.RoomFor, WellFormed, Registered;
    hide InOrder, Mappable, Beside, Copied, Insert, Fwrite;
    ghost var pages := {PageNum(buf)};
    MapWithOthers(lib, m, others, pages);
    Seek(lib, m.fd, cursor, pages);
    lib.index.RoomForOne(pages, PageNum(buf));
    ghost var e, v := lib.Now(), lib.index.Contents();
    ghost var r := ReadSpec.Reader(lib.mem, cursor, v);
    copied := ReadMapped(lib, m, buf, nbytes);
    lib.Fwrite(buf, 1, copied);
    CountsWhatWasRead(e, lib.fileMapTree, m, r, buf, nbytes);
  }

  /** The descriptor stands at the cursor: what open, lseek and earlier reads have come to. */
  method Seek(lib: Library, fd: nat, cursor: nat, ghost pages: set<nat>)
    requires Usable(lib) && lib.index.RoomFor(pages)
    modifies lib`cursors
    ensures Usable(lib) && lib.index.RoomFor(pages) && lib.index.Contents() == old(lib.index.Contents())
    ensures lib.cursors == old(lib.cursors)[fd := cursor]
  {
    hide Trace.Index.Valid, Trace.Index.Contents, Trace.Index.RoomFor, WellFormed, Registered, InOrder;
    lib.index.SupplyOf();
    lib.cursors := lib.cursors[fd := cursor];
  }

  lemma CountsWhatWasRead(e: Env, maps: Tree<FileMap>, m: FileMap, r: ReadSpec.Reader, buf: nat, nbytes: nat)
    requires Registered(InOrder(maps), e.names) && m in InOrder(maps) && WellFormed(r.view)
    requires m.offset <= r.cursor <= m.offset + (m.tail - m.start)
    requires buf + nbytes <= m.start || m.tail <= buf
    ensures var src, left := m.start + (r.cursor - m.offset), m.offset + (m.tail - m.start) - r.cursor;
      var n := if left < nbytes then left else nbytes;
      var e' := e.(mem := Copied(r.mem, buf, src, n));
      e.comparer.ByteLoop? || (n != 2 && n != 3) ==>
        Total(Fwrite(e', Insert(r.view, Arrival(buf, r.cursor, m.fileName, m.fd)), buf, n).hits) == n
  {
    hide InOrder, FindName, Copied, Insert, Fwrite, NamesAscend, DisjointMappings, WellFormed;
    ReadFacts(maps, e.names, m, r, buf, nbytes);
    assert InSpace(m) && m in InOrder(e.names);
    ReadThenWriteCounts(e, r, m, buf, nbytes);
  }

  /** The mappings: m is registered and in its slot afterwards. */
  method MapWithOthers(lib: Library, m: FileMap, others: seq<FileMap>, ghost pages: set<nat>)
    requires Usable(lib) && lib.index.RoomFor(pages)
    requires Mappable([m] + others) && Beside(lib.fileMapTree, lib.fileMapNameTree, [m] + others)
    requires m.fd < 1024 && forall o :: o in others ==> o.fd < 1024 && o.fd != m.fd
    modifies lib`fileMapTree, lib`fileMapNameTree, lib`openFileArray
    ensures Usable(lib) && lib.index.RoomFor(pages) && lib.index.Contents() == old(lib.index.Contents())
    ensures m in InOrder(lib.fileMapTree) && m.fd >= 0
    ensures m.fd % MAX_FILE_NUM in lib.openFileArray && lib.openFileArray[m.fd % MAX_FILE_NUM] == m
  {
    hide Usable, Trace.Index.RoomFor, Trace.Index.Contents, InOrder, Mappable, Beside;
    ghost var maps, names := lib.fileMapTree, lib.fileMapNameTree;
    FirstFits(maps, names, m, others);
    MapOne(lib, m, pages);
    OthersBeside(maps, names, lib.fileMapTree, lib.fileMapNameTree, m, others);
    OtherSlots(m, others);
    MapAll(lib, others, pages);
  }

  lemma FirstFits(maps: Tree<FileMap>, names: Tree<FileMap>, m: FileMap, others: seq<FileMap>)
    requires Mappable([m] + others) && Beside(maps, names, [m] + others)
    ensures Fits(InOrder(maps), names, m) && m.fd >= 0 && m.start < m.tail
  {
    hide *;
    var all := [m] + others;
    assert all[..0] == [];
    NextFits(all, 0, maps, names, maps, names);
    assert all[0] == m;
  }

  lemma OtherAt(m: FileMap, others: seq<FileMap>, i: nat)
    requires Mappable([m] + others) && i < |others|
    ensures var o := others[i];
      InSpace(o) && o.fd >= 0 && m.fileName != o.fileName && (m.tail <= o.start || o.tail <= m.start)
  {
    var all := [m] + others;
    assert all[0] == m && all[i + 1] == others[i] && others[i] in all;
  }

  lemma OthersMappable(m: FileMap, others: seq<FileMap>)
    requires Mappable([m] + others)
    ensures Mappable(others)
  {
    var all := [m] + others;
    forall i, j | 0 <= i < j < |others|
      ensures others[i].fileName != others[j].fileName
      ensures others[i].tail <= others[j].start || others[j].tail <= others[i].start
    {
      assert all[i + 1] == others[i] && all[j + 1] == others[j];
    }
    assert forall o :: o in others ==> o in all;
  }

  lemma OthersBeside(maps: Tree<FileMap>, names: Tree<FileMap>, maps': Tree<FileMap>, names': Tree<FileMap>,
                     m: FileMap, others: seq<FileMap>)
    requires Mappable([m] + others) && Beside(maps, names, [m] + others)
    requires forall o :: o in InOrder(maps') <==> o == m || o in InOrder(maps)
    requires forall o :: o in InOrder(names') <==> o == m || o in InOrder(names)
    ensures Mappable(others) && Beside(maps', names', others)
  {
    hide InOrder, Mappable;
    OthersMappable(m, others);
    assert forall o :: o in others ==> o in [m] + others;
    forall o | o in others
      ensures m.fileName != o.fileName && (m.tail <= o.start || o.tail <= m.start)
    {
      var i :| 0 <= i < |others| && others[i] == o;
      OtherAt(m, others, i);
    }
  }

  /** Descriptors below 1024 have slots of their own. */
  lemma OtherSlots(m: FileMap, others: seq<FileMap>)
    requires 0 <= m.fd < 1024 && Mappable(others) && forall o :: o in others ==> o.fd < 1024 && o.fd != m.fd
    ensures forall o :: o in others ==> o.fd % MAX_FILE_NUM != m.fd % MAX_FILE_NUM
  {
    forall o | o in others
      ensures o.fd % MAX_FILE_NUM != m.fd % MAX_FILE_NUM
    {
      OwnSlot(o.fd, m.fd);
    }
  }

  lemma OwnSlot(fd1: int, fd2: int)
    requires 0 <= fd1 < 1024 && 0 <= fd2 < 1024
    ensures fd1 % MAX_FILE_NUM == fd2 % MAX_FILE_NUM <==> fd1 == fd2
  {
  }
}
