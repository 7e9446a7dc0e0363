/** The exported operations of the default build that work on the trace: ts_memcpy, ts_fwrite with
    its comparisons, and the state they share. */
module Cidl {
  import opened Addr
  import opened Avx2
  import opened Bst
  import opened Chain
  import opened FileMaps
  import opened MatchSpec
  import opened Memory
  import MovedRecords
  import ReadSpec
  import opened TraceSpec
  import TracedSpec
  import Trace

  const MAX_FILE_NUM := 1024
  const NOT_MAPPED := TWO64 - 1

  class Library {
    const index: Trace.Index
    const comparer: Comparer
    var mem: Mem
    var fileMapTree: Tree<FileMap>
    var fileMapNameTree: Tree<FileMap>
    var openFileArray: map<nat, FileMap>
    var cursors: map<nat, nat>
    var sameSize: nat
    var notFoundSize: int
    var metadataItem: nat
    var writeSize: nat

    function Now(): Env
      reads this
    {
      Env(mem, fileMapNameTree, comparer)
    }

    /** init, around the index it has set up. */
    constructor (index: Trace.Index, comparer: Comparer, mem: Mem)
      ensures this.index == index && this.comparer == comparer && this.mem == mem
      ensures fileMapTree == Leaf && fileMapNameTree == Leaf
      ensures sameSize == metadataItem == writeSize == 0 && notFoundSize == 0
    {
      this.index, this.comparer, this.mem := index, comparer, mem;
      fileMapTree, fileMapNameTree := Leaf, Leaf;
      openFileArray, cursors := map[], map[];
      sameSize, notFoundSize, metadataItem, writeSize := 0, 0, 0, 0;
    }

    /** memcmp_avx2_asm of the build at hand, and what the caller makes of it: how many bytes are
        equal, and where diffPos goes. */
    method Compare(bufCmpStart: nat, fileCmpStart: nat, cmpLen: nat, diffPos: nat) returns (addLen: nat, diffPos': nat)
      ensures addLen == PrefixLen(Now(), bufCmpStart, fileCmpStart, cmpLen) && diffPos' == bufCmpStart + addLen
    {
      var tail := bufCmpStart + cmpLen;
      var cmpRet: int, cell: int;
      if comparer.ByteLoop? {
        cmpRet, cell := MemcmpBytes(mem, bufCmpStart, fileCmpStart, cmpLen, diffPos);
      } else {
        cmpRet, cell := MemcmpAvx2(mem, bufCmpStart, fileCmpStart, cmpLen, diffPos);
      }
      if cmpRet != 0 {
        addLen := (if tail < cell then tail else cell) - bufCmpStart;
        diffPos' := cell;
      } else {
        addLen, diffPos' := cmpLen, tail;
      }
    }

    /** cmpWrite: the length returned is all ones when the file is not mapped. */
    method CmpWrite(bufCmpStart: nat, mrp: MemRec, tail: nat, diffPos: nat)
      returns (addLen: nat, diffPos': nat, ghost hit: Option<Hit>)
      requires bufCmpStart <= tail
      modifies `sameSize, `metadataItem
      ensures hit == MatchSpec.CmpWrite(Now(), bufCmpStart, mrp, tail)
      ensures match hit
        case Some(h) => addLen == h.len && diffPos' == h.at + h.len
                        && sameSize == old(sameSize) + h.len && metadataItem == old(metadataItem) + 1
        case None => (addLen == 0 || addLen == NOT_MAPPED) && diffPos' == diffPos
                     && sameSize == old(sameSize) && metadataItem == old(metadataItem)
    {
      hide FindName, PrefixLen, U64, FileAddress, MatchSpec.CmpWrite;
      ghost var e := Now();
      CmpWriteCases(e, bufCmpStart, mrp, tail);
      hit := MatchSpec.CmpWrite(e, bufCmpStart, mrp, tail);
      diffPos' := diffPos;
      var fmSearNodep := FindName(fileMapNameTree, mrp.fileName);
      if fmSearNodep.None? {
        return NOT_MAPPED, diffPos, hit;
      }
      var fmTarNode := fmSearNodep.value;
      addLen := 0;
      if fmTarNode.offset <= mrp.fileOffset {
        var fileCmpStart := U64(fmTarNode.start + mrp.fileOffset - fmTarNode.offset);
        addLen, diffPos' := CompareAndBook(bufCmpStart, fileCmpStart, tail - bufCmpStart, diffPos);
      }
      assert Now() == e;
    }

    /** The comparison, and what is booked for it. */
    method CompareAndBook(bufCmpStart: nat, fileCmpStart: nat, cmpLen: nat, diffPos: nat)
      returns (addLen: nat, diffPos': nat)
      modifies `sameSize, `metadataItem
      ensures addLen == PrefixLen(Now(), bufCmpStart, fileCmpStart, cmpLen) && diffPos' == bufCmpStart + addLen
      ensures sameSize == old(sameSize) + addLen && metadataItem == old(metadataItem) + 1
    {
      hide PrefixLen;
      addLen, diffPos' := Compare(bufCmpStart, fileCmpStart, cmpLen, diffPos);
      metadataItem := metadataItem + 1;
      sameSize := sameSize + addLen;
    }

    /** The counters have moved in step with the scan. */
    twostate predicate Booked(s: Scan, s': Scan)
      reads this
    {
      && sameSize + Total(s.hits) == old(sameSize) + Total(s'.hits)
      && metadataItem + |s.hits| == old(metadataItem) + |s'.hits|
    }

    /** One record, in the loop over a block. */
    method MatchRecord(mrp: MemRec, page: nat, buf: nat, tail: nat, diffPos0: nat, ghost s: Scan)
      returns (diffPos: nat, ghost s': Scan)
      requires diffPos0 == s.diffPos && Applies(GetAddr(page, mrp.pageOffset), buf, tail, s.diffPos)
      modifies `sameSize, `metadataItem
      ensures s' == StepRec(Now(), buf, tail, page, mrp, s)
      ensures diffPos == s'.diffPos && Booked(s, s') && s'.notFound == s.notFound
    {
      var sameLen;
      ghost var hit;
      s' := StepRec(Now(), buf, tail, page, mrp, s);
      sameLen, diffPos, hit := CmpWrite(GetAddr(page, mrp.pageOffset), mrp, tail, diffPos0);
      if hit.Some? {
        TotalOfOneMore(s.hits, hit.value);
      }
    }

    /** The records of one block: skip those before the buffer, compare the rest up to the tail. */
    method MatchBlock(recArr: array<MemRec>, idx: nat, page: nat, buf: nat, tail: nat, diffPos0: nat,
                      ghost recs: seq<MemRec>, ghost base: nat, ghost s: Scan)
      returns (diffPos: nat, ghost s': Scan)
      requires idx <= recArr.Length && base + idx <= |recs| && Ascending(recs)
      requires forall j :: 0 <= j < idx ==> recArr[j] == recs[base + j]
      requires diffPos0 == s.diffPos
      modifies `sameSize, `metadataItem
      ensures ScanPage(Now(), buf, tail, page, recs, base, s) == ScanPage(Now(), buf, tail, page, recs, base + idx, s')
      ensures diffPos == s'.diffPos && Booked(s, s') && s'.notFound == s.notFound
    {
      hide ScanPage, StepRec;
      var i := 0;
      diffPos, s' := diffPos0, s;
      while i < idx && GetAddr(page, recArr[i].pageOffset) < buf
        invariant i <= idx
        invariant forall j :: base <= j < base + i ==> GetAddr(page, recs[j].pageOffset) < buf
      {
        i := i + 1;
      }
      PassOver(Now(), buf, tail, page, recs, base, base + i, s);
      while i < idx
        invariant i <= idx && diffPos == s'.diffPos && Booked(s, s') && s'.notFound == s.notFound
        invariant i < idx ==> buf <= GetAddr(page, recs[base + i].pageOffset)
        invariant ScanPage(Now(), buf, tail, page, recs, base, s)
               == ScanPage(Now(), buf, tail, page, recs, base + i, s')
      {
        var bufCmpStart := GetAddr(page, recArr[i].pageOffset);
        if bufCmpStart < diffPos {
          PassOver(Now(), buf, tail, page, recs, base + i, base + i + 1, s');
        } else if bufCmpStart > tail {
          PassOverBehind(Now(), buf, tail, page, recs, base + i, base + idx, s');
          break;
        } else {
          ScanStep(Now(), buf, tail, page, recs, base + i, s');
          diffPos, s' := MatchRecord(recArr[i], page, buf, tail, diffPos, s');
        }
        assert i + 1 < idx ==> recs[base + i].pageOffset < recs[base + i + 1].pageOffset;
        i := i + 1;
      }
    }

    /** The blocks of one page, from the oldest to the newest. */
    method MatchPage(node: RecTreeNode, page: nat, buf: nat, tail: nat, diffPos0: nat, ghost s: Scan)
      returns (diffPos: nat, ghost s': Scan)
      requires node.Valid() && Ascending(node.recs) && diffPos0 == s.diffPos
      modifies `sameSize, `metadataItem
      ensures s' == ScanPage(Now(), buf, tail, page, node.recs, 0, s)
      ensures diffPos == s'.diffPos && Booked(s, s') && s'.notFound == s.notFound
    {
      hide ScanPage, StepRec;
      var blockEntry := node.listHead.last;
      ghost var b, base := 0, 0;
      diffPos, s' := diffPos0, s;
      while blockEntry != null
        invariant b <= |node.chain| && blockEntry == (if b == |node.chain| then null else node.chain[b])
        invariant base == if b == |node.chain| then |node.recs| else MEMRECPERENTRY * b
        invariant base <= |node.recs| && node.Valid() && node.recs == old(node.recs)
        invariant diffPos == s'.diffPos && Booked(s, s') && s'.notFound == s.notFound
        invariant ScanPage(Now(), buf, tail, page, node.recs, 0, s)
               == ScanPage(Now(), buf, tail, page, node.recs, base, s')
        decreases |node.chain| - b
      {
        var idx := if node.recModEntry == blockEntry then node.memRecIdx else MEMRECPERENTRY;
        node.BlockFacts(b);
        diffPos, s' := MatchBlock(blockEntry.recArr, idx, page, buf, tail, diffPos, node.recs, base, s');
        blockEntry := blockEntry.prev;
        base := base + idx;
        b := b + 1;
      }
      ScanEnd(Now(), buf, tail, page, node.recs, s');
    }

    /** Every traced page can be read. */
    ghost predicate Readable(v: View)
      reads index`recTree, index`Repr, index.recTree.Values, index.Repr
    {
      index.recTree.Keys == v.Keys
      && forall p :: p in index.recTree ==>
           index.recTree[p].Within(index.Repr)
           && index.recTree[p].Valid() && index.recTree[p].recs == v[p] && Ascending(v[p])
    }

    /** One page of the write. */
    method WritePage(start: nat, buf: nat, length: nat, diffPos0: nat, ghost v: View, ghost s: Scan)
      returns (diffPos: nat, ghost s': Scan)
      requires Readable(v) && diffPos0 == s.diffPos
      modifies `sameSize, `notFoundSize, `metadataItem
      ensures s' == VisitPage(Now(), v, buf, buf + length, start, s)
      ensures diffPos == s'.diffPos && Booked(s, s')
      ensures notFoundSize - s'.notFound == old(notFoundSize) - s.notFound
    {
      hide RecTreeNode.Valid, ScanPage, FindName;
      diffPos, s' := diffPos0, s;
      var toTailLen := ToInt32(length - (GetAddr(start, 0) - buf));
      if GetAddr(start, 0) < diffPos { return; }
      if start in index.recTree {
        diffPos, s' := MatchPage(index.recTree[start], start, buf, buf + length, diffPos, s);
      } else {
        var notFoundLen := if PAGE_SIZE < toTailLen then PAGE_SIZE else toTailLen;
        notFoundSize := notFoundSize + notFoundLen;
        s' := s.(notFound := s.notFound + notFoundLen);
      }
    }

    /** ts_fwrite of n items of the given size: the comparison loop over the pages of the buffer. */
    method Fwrite(buf: nat, size: nat, n: nat)
      requires buf + size * n < TWO64
      requires index.Valid() && WellFormed(index.Contents()) && this !in index.Repr
      modifies `sameSize, `notFoundSize, `metadataItem, `writeSize
      ensures var r := MatchSpec.Fwrite(old(Now()), old(index.Contents()), buf, size * n);
        && sameSize == old(sameSize) + Total(r.hits)
        && metadataItem == old(metadataItem) + |r.hits|
        && notFoundSize == old(notFoundSize) + r.notFound
        && writeSize == old(writeSize) + size * n
      ensures index.Valid() && index.Contents() == old(index.Contents())
    {
      hide Trace.Index.Valid, Trace.Index.Contents, RecTreeNode.Valid, VisitPage, WellFormed, Readable;
      var length := size * n;
      var tail := buf + length;
      var start, end := PageNum(buf), PageNum(tail);
      ghost var v := index.Contents();
      Reading();
      index.SupplyOf();
      ghost var env := Now();
      writeSize := writeSize + length;
      var diffPos := 0;
      ghost var s := Scan(0, [], 0);
      while start <= end
        invariant Readable(v) && Now() == env && start <= end + 1
        invariant ScanPages(env, v, buf, tail, start, s) == MatchSpec.Fwrite(env, v, buf, length)
        invariant diffPos == s.diffPos && Booked(Scan(0, [], 0), s)
        invariant notFoundSize - s.notFound == old(notFoundSize) && writeSize == old(writeSize) + length
        invariant index.Valid() && index.Contents() == v && index.Supply()
        invariant index.Objects() <= index.Repr
      {
        diffPos, s := WritePage(start, buf, length, diffPos, v, s);
        start := start + 1;
      }
    }

    lemma Reading()
      requires index.Valid() && WellFormed(index.Contents())
      ensures Readable(index.Contents())
    {
      hide Trace.Index.Valid, RecTreeNode.Valid;
      index.ContentsKeys();
      forall p | p in index.recTree
        ensures index.recTree[p].Within(index.Repr)
        ensures index.recTree[p].Valid() && index.recTree[p].recs == index.Contents()[p]
      {
        index.Look(p);
      }
    }

    // ---- Copying --------------------------------------------------------------------------------

    /** ts_mmap of a file, with the address mmap has returned and the name stored for the descriptor.
        A mapping that fits is registered, and the others stay so. */
    method Mmap(ret: nat, len: nat, path: nat, off: nat, file: nat)
      modifies `fileMapTree, `fileMapNameTree, `openFileArray
      ensures var m := FileMap(ret, ret + len, path, off, file);
        && openFileArray == old(openFileArray)[file % MAX_FILE_NUM := m]
        && fileMapTree == TSearch(old(fileMapTree), m, StartCompare)
        && fileMapNameTree == TSearch(old(fileMapNameTree), m, NameCompare)
      ensures var m := FileMap(ret, ret + len, path, off, file);
        old(Registered(InOrder(fileMapTree), fileMapNameTree) && Fits(InOrder(fileMapTree), fileMapNameTree, m)) ==>
          && Registered(InOrder(fileMapTree), fileMapNameTree)
          && (forall o :: o in InOrder(fileMapTree) <==> o == m || o in old(InOrder(fileMapTree)))
          && (forall o :: o in InOrder(fileMapNameTree) <==> o == m || o in old(InOrder(fileMapNameTree)))
    {
      hide Registered, Fits, InOrder;
      var treeNode := FileMap(ret, ret + len, path, off, file);
      if Registered(InOrder(fileMapTree), fileMapNameTree) && Fits(InOrder(fileMapTree), fileMapNameTree, treeNode) {
        MapRegisters(fileMapTree, fileMapNameTree, treeNode);
      }
      openFileArray := openFileArray[file % MAX_FILE_NUM := treeNode];
      fileMapTree := TSearch(fileMapTree, treeNode, StartCompare);
      fileMapNameTree := TSearch(fileMapNameTree, treeNode, NameCompare);
    }

    /** ts_memcpy: a copy whose source a mapping is found for is recorded. */
    method Memcpy(dest: nat, src: nat, n: nat)
      requires index.Valid() && this !in index.Repr && index.Room(PageNum(dest))
      requires dest + n <= src || src + n <= dest
      modifies `mem, index, index.Repr
      ensures index.Valid() && this !in index.Repr && fresh(index.Repr - old(index.Repr))
      ensures mem == Copied(old(mem), dest, src, n)
      ensures |index.nodePool.free| + |index.Contents()| == old(|index.nodePool.free| + |index.Contents()|)
      ensures index.Contents() == match FindRange(fileMapTree, src, src + n)
                                  case None => old(index.Contents())
                                  case Some(m) => Insert(old(index.Contents()), CopyRecord(m, dest, src))
      ensures match FindRange(fileMapTree, src, src + n)
        case None => true
        case Some(m) => ArrivedAt(old(index.Contents()), index.Contents(), dest / 4096,
                                  MemRec((m.offset + src - m.start) % TWO64, m.fileName, dest % 4096, m.fd))
    {
      hide Trace.Index.Valid, Trace.Index.Contents, ArrivedAt;
      index.SupplyOf();
      mem := Copied(mem, dest, src, n);
      assert index.Valid() && index.Contents() == old(index.Contents());
      var fileMapSearRes := FindRange(fileMapTree, src, src + n);
      if fileMapSearRes.Some? {
        var fmNode := fileMapSearRes.value;
        index.InsertRec(U64(fmNode.offset + src - fmNode.start), dest, fmNode.fileName, fmNode.fd);
      }
    }

    /** ts_memcpy_withFile: the mapping is given, or null. */
    method MemcpyWithFile(dest: nat, src: nat, n: nat, node: Option<FileMap>)
      requires index.Valid() && this !in index.Repr && index.Room(PageNum(dest))
      requires dest + n <= src || src + n <= dest
      modifies `mem, index, index.Repr
      ensures index.Valid() && this !in index.Repr && fresh(index.Repr - old(index.Repr))
      ensures mem == Copied(old(mem), dest, src, n)
      ensures index.Contents() == match node
                                  case None => old(index.Contents())
                                  case Some(m) => Insert(old(index.Contents()), CopyRecord(m, dest, src))
    {
      hide Trace.Index.Valid, Trace.Index.Contents, ArrivedAt, Insert;
      index.SupplyOf();
      mem := Copied(mem, dest, src, n);
      assert index.Valid() && index.Contents() == old(index.Contents());
      if node.Some? {
        var fmNode := node.value;
        index.InsertRec(U64(fmNode.offset + src - fmNode.start), dest, fmNode.fileName, fmNode.fd);
      }
    }

    ghost function OpenFile(fd: nat): Option<FileMap>
      reads `openFileArray
    {
      if fd % MAX_FILE_NUM in openFileArray then Some(openFileArray[fd % MAX_FILE_NUM]) else None
    }

    /** ts_read, with the name stored for the descriptor; no result when the program exits: the name
        is not mapped, or the descriptor has no cursor. */
    method Read(fd: nat, path: nat, buf: nat, nbytes: nat) returns (copied: Option<nat>)
      requires index.Valid() && this !in index.Repr && index.Room(PageNum(buf))
      requires fd in cursors && FindName(fileMapNameTree, path).Some? ==>
        var m := FindName(fileMapNameTree, path).value;
        var src, n := ReadSpec.CopyBegin(m, cursors[fd]), ReadSpec.CopyLen(m, cursors[fd], nbytes);
        buf + n <= src || src + n <= buf
      modifies `mem, `cursors, index, index.Repr
      ensures index.Valid() && this !in index.Repr && fresh(index.Repr - old(index.Repr))
      ensures copied.Some? <==> fd in old(cursors) && FindName(fileMapNameTree, path).Some?
      ensures copied.Some? ==>
        var m := FindName(fileMapNameTree, path).value;
        && copied.value == ReadSpec.CopyLen(m, old(cursors)[fd], nbytes) && fd in cursors
        && ReadSpec.Reader(mem, cursors[fd], index.Contents())
           == ReadSpec.Read(m, OpenFile(fd), ReadSpec.Reader(old(mem), old(cursors)[fd], old(index.Contents())),
                            ReadSpec.Request(buf, nbytes))
        && cursors == old(cursors)[fd := cursors[fd]]
      ensures copied.None? ==> mem == old(mem) && cursors == old(cursors) && index.Contents() == old(index.Contents())
    {
      hide Trace.Index.Valid, Trace.Index.Contents, Copied, Insert;
      var targetNodep := FindName(fileMapNameTree, path);
      if targetNodep.None? || fd !in cursors {
        return None;
      }
      var node := targetNodep.value;
      var seekRet := cursors[fd];
      var copyBegin := U64(node.start + (seekRet - node.offset));
      var copyLen := U64(node.tail - copyBegin);
      copyLen := if copyLen < nbytes then copyLen else nbytes;
      var slot := if fd % MAX_FILE_NUM in openFileArray then Some(openFileArray[fd % MAX_FILE_NUM]) else None;
      MemcpyWithFile(buf, copyBegin, copyLen, slot);
      index.SupplyOf();
      cursors := cursors[fd := seekRet + copyLen];
      copied := Some(copyLen);
    }

    // ---- ts_memcpy_traced -----------------------------------------------------------------------

    /** The pages that are copied to. */
    ghost function DestPages(dest: nat, src: nat, n: nat): set<nat> {
      Range(PageNum(dest), TracedSpec.LastDestPage(dest, src, n))
    }

    ghost function Range(lo: nat, hi: int): (r: set<nat>)
      ensures forall p :: p in r <==> lo <= p <= hi
      decreases hi - lo
    {
      if lo > hi then {} else Range(lo, hi - 1) + {hi}
    }

    /** What the loops of ts_memcpy_traced keep. */
    ghost predicate Ready(pages: set<nat>)
      reads this, index, index.nodePool, index.headPool, index.entryPool, index.arrPool
      reads index.nodePool.table, index.headPool.table, index.entryPool.table, index.arrPool.table
      reads index.Objects(), index.recTree.Values
    {
      index.Valid() && this !in index.Repr && index.RoomFor(pages)
    }

    /** The trace after records k..j of page p have been inserted at their new addresses. */
    ghost function AfterMoves(v: View, dest: nat, src: nat, p: nat, slots: seq<MemRec>, k: nat, j: nat): View
      requires k <= j <= |slots|
    {
      InsertAll(v, TracedSpec.ShiftedAll(dest, src, p, slots[k..j]))
    }

    /** The records idx.. of a source page are inserted at their new addresses; rec is the page's
        array, its slots are what the page held before it was cut off. */
    method MoveRecords(rec: array<MemRec>, idx0: nat, uplimit: nat, start: nat, dest: nat, src: nat,
                       ghost slots: seq<MemRec>, ghost pages: set<nat>)
      requires Ready(pages) && idx0 <= uplimit <= |slots| && start !in pages
      requires start in index.recTree && index.recTree[start].arrs == [rec] && index.recTree[start].slots == slots
      requires Trace.ArrayHolds(rec, slots)
      requires forall i :: idx0 <= i < uplimit ==> TracedSpec.Shifted(dest, src, start, slots[i]).Page() in pages
      modifies index, index.Repr
      ensures Ready(pages)
      ensures index.Contents() == AfterMoves(old(index.Contents()), dest, src, start, slots, idx0, uplimit)
      ensures fresh(index.Repr - old(index.Repr))
    {
      hide Ready, Trace.Index.Valid, Trace.Index.Contents, TracedSpec.Shifted, AfterMoves, Insert, PageNum;
      ghost var v := index.Contents();
      var idx := idx0;
      NothingMoved(v, dest, src, start, slots, idx);
      while idx < uplimit
        invariant idx0 <= idx <= uplimit && Ready(pages) && fresh(index.Repr - old(index.Repr))
        invariant start in index.recTree && index.recTree[start].arrs == [rec] && index.recTree[start].slots == slots
        invariant Trace.ArrayHolds(rec, slots)
        invariant index.Contents() == AfterMoves(v, dest, src, start, slots, idx0, idx)
      {
        label L:
        MoveRecord(rec[idx], start, dest, src, pages);
        forall o | o in index.Repr && o !in old(index.Repr)
          ensures fresh(o)
        {
          assert o !in old@L(index.Repr) ==> fresh@L(o);
        }
        OneMoreRecord(v, dest, src, start, slots, idx0, idx);
        index.SlotsHeld(start);
        idx := idx + 1;
      }
    }

    /** One insertion of the loop. */
    method MoveRecord(curMemRec: MemRec, start: nat, dest: nat, src: nat, ghost pages: set<nat>)
      requires Ready(pages) && start !in pages && start in index.recTree
      requires TracedSpec.Shifted(dest, src, start, curMemRec).Page() in pages
      modifies index, index.Repr
      ensures Ready(pages) && index.Valid() && fresh(index.Repr - old(index.Repr))
      ensures start in index.recTree && index.recTree[start] == old(index.recTree[start])
      ensures index.recTree[start].arrs == old(index.recTree[start].arrs)
      ensures index.recTree[start].slots == old(index.recTree[start].slots)
      ensures index.Contents() == Insert(old(index.Contents()), TracedSpec.Shifted(dest, src, start, curMemRec))
    {
      hide Trace.Index.Valid, Trace.Index.Contents, Trace.Index.RoomFor, Trace.Index.Others;
      var copySrc := GetAddr(start, curMemRec.pageOffset);
      var copyDest := U64(dest + copySrc - src);
      index.InsertRecBeside(curMemRec.fileOffset, copyDest, curMemRec.fileName, curMemRec.fd, pages, start);
    }

    lemma NothingMoved(v: View, dest: nat, src: nat, p: nat, slots: seq<MemRec>, k: nat)
      requires k <= |slots|
      ensures AfterMoves(v, dest, src, p, slots, k, k) == v
    {
    }

    lemma OneMoreRecord(v: View, dest: nat, src: nat, p: nat, slots: seq<MemRec>, k: nat, j: nat)
      requires k <= j < |slots|
      ensures AfterMoves(v, dest, src, p, slots, k, j + 1)
        == Insert(AfterMoves(v, dest, src, p, slots, k, j), TracedSpec.Shifted(dest, src, p, slots[j]))
    {
      var s := TracedSpec.ShiftedAll(dest, src, p, slots[k..j]);
      assert TracedSpec.ShiftedAll(dest, src, p, slots[k..j + 1]) == s + [TracedSpec.Shifted(dest, src, p, slots[j])];
      InsertAllOneMore(v, s, TracedSpec.Shifted(dest, src, p, slots[j]));
    }

    /** The page start can be copied from: one block, all of its new addresses on pages with room. */
    ghost predicate CanMove(v: View, dest: nat, src: nat, start: nat, pages: set<nat>) {
      var s := Recs(v, start);
      && |s| <= MEMRECPERENTRY && Ascending(s) && (start == PageNum(src) && start in v ==> s != [])
      && start !in pages
      && forall i :: TracedSpec.From(v, src, start) <= i < |s| ==>
           TracedSpec.Shifted(dest, src, start, s[i]).Page() in pages
    }

    /** On the first source page: the index of the first record to copy. */
    method FindCut(rec: array<MemRec>, uplimit: nat, destOffset: nat, ghost recs: seq<MemRec>) returns (idx: nat)
      requires 0 < uplimit == |recs| <= rec.Length && Ascending(recs)
      requires forall j :: 0 <= j < uplimit ==> rec[j] == recs[j]
      ensures idx == TracedSpec.FirstAtLeast(recs, destOffset)
    {
      idx := uplimit;
      if rec[uplimit - 1].pageOffset >= destOffset {
        idx := 0;
        while idx < uplimit && rec[idx].pageOffset < destOffset
          invariant idx <= uplimit && forall j :: 0 <= j < idx ==> recs[j].pageOffset < destOffset
        {
          idx := idx + 1;
        }
      }
      assert forall j :: idx <= j < uplimit ==> recs[idx].pageOffset <= recs[j].pageOffset;
    }

    /** The index of the first record to copy and the number of records; on the first source page
        the records from that index on are cut off. */
    method CutSource(node: RecTreeNode, rec: array<MemRec>, start: nat, src: nat, ghost v: View, ghost pages: set<nat>)
      returns (idx: nat, uplimit: nat)
      requires Ready(pages) && v == index.Contents() && start in index.recTree && index.recTree[start] == node
      requires node.arrs == [rec] && Trace.ArrayHolds(rec, node.slots)
      requires node.recs <= node.slots && node.memRecIdx == |node.recs|
      requires Recs(v, start) == node.recs && Ascending(node.recs) && (start == PageNum(src) ==> node.recs != [])
      modifies node`recModEntry, node`memRecIdx, node`recs
      ensures Ready(pages) && idx == TracedSpec.From(v, src, start) && uplimit == old(|node.recs|)
      ensures node.arrs == [rec] && node.slots == old(node.slots) && index.recTree == old(index.recTree)
      ensures index.Contents() == v[start := TracedSpec.Kept(v, src, start)]
    {
      hide Trace.Index.Valid, Trace.Index.Contents, TracedSpec.FirstAtLeast, Ascending;
      index.ContentsKeys();
      index.SupplyOf();
      idx, uplimit := 0, node.memRecIdx;
      if start == PageNum(src) {
        idx := FindCut(rec, uplimit, PageOffset(src), node.recs);
        if idx < uplimit {
          index.TruncatePage(start, node, idx);
        }
      }
      assert idx == uplimit || start != PageNum(src) ==> TracedSpec.Kept(v, src, start) == v[start];
      assert v[start := v[start]] == v;
    }

    /** The body of the loop over the source pages, for a page that is traced. */
    method MovePage(start: nat, dest: nat, src: nat, ghost v: View, ghost pages: set<nat>)
      requires Ready(pages) && v == index.Contents() && start in v && CanMove(v, dest, src, start, pages)
      modifies index, index.Repr
      ensures Ready(pages) && fresh(index.Repr - old(index.Repr))
      ensures index.Contents() == InsertAll(v[start := TracedSpec.Kept(v, src, start)],
        TracedSpec.ShiftedAll(dest, src, start, Recs(v, start)[TracedSpec.From(v, src, start)..]))
    {
      hide TracedSpec.From, TracedSpec.Shifted, TracedSpec.Kept, TracedSpec.ShiftedAll, Ready, CanMove, InsertAll;
      hide Trace.Index.Valid, Trace.Index.Contents;
      SourceFacts(start, dest, src, v, pages);
      var node := index.recTree[start];
      var blockEntry := node.listHead.last;
      var rec := blockEntry.recArr;
      ghost var s, slots := node.recs, node.slots;
      var idx, uplimit := CutSource(node, rec, start, src, v, pages);
      MoveRecords(rec, idx, uplimit, start, dest, src, slots, pages);
      assert slots[idx..uplimit] == s[idx..];
    }

    /** What is known of a source page. */
    lemma SourceFacts(start: nat, dest: nat, src: nat, v: View, pages: set<nat>)
      requires Ready(pages) && v == index.Contents() && start in v && CanMove(v, dest, src, start, pages)
      ensures start in index.recTree && index.recTree[start] in index.Repr && start !in pages
      ensures var n := index.recTree[start];
        && |n.arrs| == 1 && n.memRecIdx == |n.recs| && n.recs <= n.slots
        && Recs(v, start) == n.recs && Ascending(n.recs)
        && n.listHead != null && n.listHead.last != null && n.listHead.last.recArr == n.arrs[0]
        && Trace.ArrayHolds(n.arrs[0], n.slots) && (start == PageNum(src) ==> n.recs != [])
        && forall i :: TracedSpec.From(v, src, start) <= i < |n.recs| ==>
             TracedSpec.Shifted(dest, src, start, n.slots[i]).Page() in pages
    {
      hide TracedSpec.From, TracedSpec.Shifted, Trace.Index.Valid, Trace.Index.Contents, Trace.Index.RoomFor;
      index.ContentsKeys();
      index.Look(start);
      index.OneBlock(start);
    }

    /** ts_memcpy_traced: no page is both source and destination, source pages have one block, and
        the first of them at least one record. */
    method MemcpyTraced(dest: nat, src: nat, n: nat)
      requires index.Valid() && this !in index.Repr && WellFormed(index.Contents())
      requires TracedSpec.Separate(dest, src, n) && index.RoomFor(DestPages(dest, src, n))
      requires forall p :: PageNum(src) <= p <= PageNum(src + n) ==> |Recs(index.Contents(), p)| <= MEMRECPERENTRY
      requires PageNum(src) in index.Contents() ==> index.Contents()[PageNum(src)] != []
      modifies `mem, index, index.Repr
      ensures index.Valid() && this !in index.Repr && fresh(index.Repr - old(index.Repr))
      ensures mem == Copied(old(mem), dest, src, n)
      ensures index.Contents() == TracedSpec.MemcpyTraced(old(index.Contents()), dest, src, n)
      ensures forall q, x ::
        x in Recs(index.Contents(), q) <==> MovedRecords.HasAfterMove(old(index.Contents()), dest, src, n, q, x)
    {
      hide Trace.Index.Valid, Trace.Index.Contents, Trace.Index.RoomFor, Copied, WellFormed, TracedSpec.MemcpyTraced;
      hide TracedSpec.After, TracedSpec.Separate, CanMove, TracedSpec.ShiftedAll, MovedRecords.HasAfterMove, Recs;
      ghost var v, pages := index.Contents(), DestPages(dest, src, n);
      index.SupplyOf();
      mem := Copied(mem, dest, src, n);
      var start, end := PageNum(src), PageNum(src + n);
      TracedSpec.BeforeAll(v, dest, src, n);
      while start <= end
        invariant PageNum(src) <= start <= end + 1 && Ready(pages) && fresh(index.Repr - old(index.Repr))
        invariant index.Contents() == TracedSpec.After(v, dest, src, start) && mem == Copied(old(mem), dest, src, n)
      {
        index.ContentsKeys();
        TracedSpec.SourceUntouched(v, dest, src, n, start);
        TracedSpec.AfterPage(v, dest, src, n, start);
        MayMove(v, dest, src, n, start);
        if start in index.recTree {
          label L:
          MovePage(start, dest, src, index.Contents(), pages);
          forall o | o in index.Repr && o !in old(index.Repr)
            ensures fresh(o)
          {
            assert o !in old@L(index.Repr) ==> fresh@L(o);
          }
        }
        start := start + 1;
      }
      EveryPageMoved(v, dest, src, n);
    }

    lemma EveryPageMoved(v: View, dest: nat, src: nat, n: nat)
      requires WellFormed(v) && TracedSpec.Separate(dest, src, n)
      ensures forall q, x ::
        x in Recs(TracedSpec.MemcpyTraced(v, dest, src, n), q) <==> MovedRecords.HasAfterMove(v, dest, src, n, q, x)
    {
      hide *;
      forall q, x
        ensures x in Recs(TracedSpec.MemcpyTraced(v, dest, src, n), q)
           <==> MovedRecords.HasAfterMove(v, dest, src, n, q, x)
      {
        MovedRecords.PageAfterMove(v, dest, src, n, q);
      }
    }

    lemma MayMove(v: View, dest: nat, src: nat, n: nat, p: nat)
      requires WellFormed(v) && TracedSpec.Separate(dest, src, n) && PageNum(src) <= p <= PageNum(src + n)
      requires |Recs(v, p)| <= MEMRECPERENTRY && (PageNum(src) in v ==> v[PageNum(src)] != [])
      ensures CanMove(TracedSpec.After(v, dest, src, p), dest, src, p, DestPages(dest, src, n))
      ensures TracedSpec.Kept(TracedSpec.After(v, dest, src, p), src, p) == TracedSpec.Kept(v, src, p)
      ensures TracedSpec.From(TracedSpec.After(v, dest, src, p), src, p) == TracedSpec.From(v, src, p)
    {
      TracedSpec.SourceUntouched(v, dest, src, n, p);
      var s, k := Recs(v, p), TracedSpec.From(v, src, p);
      forall i | k <= i < |s|
        ensures TracedSpec.Shifted(dest, src, p, s[i]).Page() in DestPages(dest, src, n)
      {
        TracedSpec.FromIsCut(v, src, p, i);
        assert TracedSpec.IsSource(v, src, p + 1, p, s[i]);
        TracedSpec.ShiftedAddress(v, dest, src, n, p + 1, p, s[i]);
      }
    }
  }
}
