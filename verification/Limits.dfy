/** Inputs on which a copy that is written out again is not counted in full. */
module Limits {
  import opened Addr
  import opened Bst
  import opened EndToEnd
  import opened FileHits
  import opened FileMaps
  import opened MatchSpec
  import opened Memory
  import opened ReadRuns
  import opened ReadSpec
  import opened Seams
  import opened TraceSpec
  import TracedSpec

  const LOWER := FileMap(0x10000, 0x11000, 1, 0, 3)
  const UPPER := FileMap(0x11000, 0x12000, 2, 0x1000, 4)

  /** A mapping whose start is the source's end. */
  function Adjacent(): Tree<FileMap> {
    Node(Node(Leaf, LOWER, Leaf), UPPER, Leaf)
  }

  lemma AdjacentListing()
    ensures InOrder(Adjacent()) == [LOWER, UPPER]
    ensures Registered(InOrder(Adjacent()), Adjacent())
  {
    assert InOrder(Adjacent()) == InOrder(Adjacent().left) + [UPPER] + [];
    assert InOrder(Adjacent().left) == [LOWER];
    assert InOrder(Adjacent())[0] == LOWER && InOrder(Adjacent())[1] == UPPER;
  }

  /** The last 256 bytes of the lower mapping are copied. The search, which takes ranges as closed,
      finds the upper mapping; the offset recorded is below that mapping's, and the write does not
      count the copy in full, whatever the comparer. */
  lemma AdjacentMappingLosesCopy(mem: Mem, comparer: Comparer, v: View)
    requires WellFormed(v)
    ensures var src, n, dest := 0x10F00, 0x100, 0x20000;
      var e := Env(Copied(mem, dest, src, n), Adjacent(), comparer);
      && Registered(InOrder(Adjacent()), Adjacent())
      && LOWER in InOrder(Adjacent()) && LOWER.start <= src && src + n <= LOWER.tail
      && FindRange(Adjacent(), src, src + n) == Some(UPPER)
      && Total(Fwrite(e, MemcpyView(Adjacent(), v, dest, src, n), dest, n).hits) < n
  {
    AdjacentListing();
    hide InOrder, Fwrite, WellFormed, DisjointMappings, NamesAscend, NextPageCounts, Copied;
    var src, n, dest := 0x10F00, 0x100, 0x20000;
    var e := Env(Copied(mem, dest, src, n), Adjacent(), comparer);
    assert SearchCompare(FileMap(src, src + n, 0, 0, 0), UPPER) == 0;
    CopiedSame(mem, dest, src, n);
    UpperHasName();
    SelfShift(UPPER);
    CopyThenWrite(e, v, UPPER, UPPER, dest, src, n);
    InsertKeepsWellFormed(v, CopyRecord(UPPER, dest, src));
    FwriteSound(e, Insert(v, CopyRecord(UPPER, dest, src)), dest, n);
    NotUsable();
  }

  lemma UpperHasName()
    ensures FindName(Adjacent(), UPPER.fileName) == Some(UPPER)
  {
  }

  lemma NotUsable()
    ensures UPPER.offset > U64(UPPER.offset + 0x10F00 - UPPER.start)
  {
  }

  /** Two equal non-zero bytes: with the AVX2 comparer only the first of them counts. */
  lemma FalseAlarmLosesByte(v: View)
    requires WellFormed(v)
    ensures var mem: Mem := x => 1;
      var src, n, dest := 0x10000, 2, 0x20000;
      var e := Env(mem, Node(Leaf, LOWER, Leaf), Avx2Asm);
      && Same(mem, dest, src, n)
      && Total(Fwrite(e, Insert(v, CopyRecord(LOWER, dest, src)), dest, n).hits) == 1
  {
    var mem: Mem := x => 1;
    var src, n, dest := 0x10000, 2, 0x20000;
    var e := Env(mem, Node(Leaf, LOWER, Leaf), Avx2Asm);
    var v' := Insert(v, CopyRecord(LOWER, dest, src));
    assert FindName(e.names, LOWER.fileName) == Some(LOWER);
    FirstDiffersIsPrefix(mem, dest, src, n, n);
    hide ScanPages;
    FirstPage(e, v, CopyRecord(LOWER, dest, src), n);
    InsertKeepsWellFormed(v, CopyRecord(LOWER, dest, src));
    RecordPointsBack(e, LOWER, LOWER, dest, src);
    CopyScanned(e, CopyRecord(LOWER, dest, src), src, n);
    AfterCopyScanned(e, v', dest, src, n, 1);
    FwriteOpens(e, v', dest, n);
  }

  // ---- Two copies side by side --------------------------------------------------------------------

  const FIRST := FileMap(0x10000, 0x11000, 1, 0, 3)
  const SECOND := FileMap(0x20000, 0x21000, 2, 0, 4)

  function TwoFiles(): Tree<FileMap> {
    Node(Leaf, FIRST, Node(Leaf, SECOND, Leaf))
  }

  /** The first file starts with 1, 2, 9 and the second with 2, 3, 4. */
  function TwoContents(): Mem {
    x => if x == 0x10000 then 1 else if x == 0x10001 then 2 else if x == 0x10002 then 9
         else if x == 0x20000 then 2 else if x == 0x20001 then 3 else if x == 0x20002 then 4 else 0
  }

  /** The memory after one byte has been copied from the first file and three behind it from the
      second. */
  function TwoCopied(): Mem {
    Copied(Copied(TwoContents(), 0x40000, 0x10000, 1), 0x40001, 0x20000, 3)
  }

  lemma FilesAreFound(comparer: Comparer)
    ensures var e := Env(TwoCopied(), TwoFiles(), comparer);
      && FileAddress(e, CopyRecord(FIRST, 0x40000, 0x10000).Rec()) == Some(0x10000)
      && FileAddress(e, CopyRecord(SECOND, 0x40001, 0x20000).Rec()) == Some(0x20000)
    ensures FindRange(TwoFiles(), 0x10000, 0x10001) == Some(FIRST)
    ensures FindRange(TwoFiles(), 0x20000, 0x20003) == Some(SECOND)
  {
    var e := Env(TwoCopied(), TwoFiles(), comparer);
    hide TwoCopied;
    assert FindName(TwoFiles(), 1) == Some(FIRST);
    assert FindName(TwoFiles(), 2) == Some(SECOND);
  }

  lemma BytesAreEqual()
    ensures Same(TwoCopied(), 0x40000, 0x10000, 1) && Same(TwoCopied(), 0x40001, 0x20000, 3)
    ensures CommonPrefix(TwoCopied(), 0x40000, 0x10000, 4) == 2
  {
    var m0 := TwoContents();
    var m1 := Copied(m0, 0x40000, 0x10000, 1);
    var m := Copied(m1, 0x40001, 0x20000, 3);
    assert m1(0x20000) == 2 && m1(0x20001) == 3 && m1(0x20002) == 4;
    assert m(0x40000) == 1 && m(0x40001) == 2 && m(0x40002) == 3 && m(0x40003) == 4;
    assert m(0x10000) == 1 && m(0x10001) == 2 && m(0x10002) == 9;
    assert m(0x20000) == 2 && m(0x20001) == 3 && m(0x20002) == 4;
    FirstDiffersIsPrefix(m, 0x40000, 0x10000, 4, 2);
  }

  /** Four bytes, each a copy of a file byte, of which two count: the second file starts with the byte
      that follows in the first one, so the first comparison runs past the seam by one byte, and the
      second record is below diffPos. */
  lemma SeamLosesBytes(comparer: Comparer)
    ensures var maps, n1, n2, dest := TwoFiles(), 1, 3, 0x40000;
      var e := Env(TwoCopied(), maps, comparer);
      var v := MemcpyView(maps, MemcpyView(maps, map[], dest, 0x10000, n1), dest + n1, 0x20000, n2);
      && Same(e.mem, dest, 0x10000, n1) && Same(e.mem, dest + n1, 0x20000, n2)
      && Total(Fwrite(e, v, dest, n1 + n2).hits) == 2
  {
    hide *;
    var e := Env(TwoCopied(), TwoFiles(), comparer);
    var a1, a2 := CopyRecord(FIRST, 0x40000, 0x10000), CopyRecord(SECOND, 0x40001, 0x20000);
    FilesAreFound(comparer);
    BytesAreEqual();
    FoundView(TwoFiles(), map[], FIRST, 0x40000, 0x10000, 1);
    FoundView(TwoFiles(), Insert(map[], a1), SECOND, 0x40001, 0x20000, 3);
    AreNeighbours(e, a1, a2);
    SeamIsPassed(e);
    TracedSpec.NothingTraced();
    TwoCopies(e, map[], a1, a2, 0x10000, 0x20000, 1, 3);
  }

  lemma AreNeighbours(e: Env, a1: Arrival, a2: Arrival)
    requires a1 == CopyRecord(FIRST, 0x40000, 0x10000) && a2 == CopyRecord(SECOND, 0x40001, 0x20000)
    requires FileAddress(e, a1.Rec()) == Some(0x10000) && FileAddress(e, a2.Rec()) == Some(0x20000)
    requires Same(e.mem, 0x40000, 0x10000, 1) && Same(e.mem, 0x40001, 0x20000, 3)
    ensures Neighbours(e, a1, a2, 0x10000, 0x20000, 1, 3)
    ensures a1.dest == 0x40000 && a2.dest == 0x40001
  {
    hide Same, FileAddress;
  }

  lemma SeamIsPassed(e: Env)
    requires CommonPrefix(e.mem, 0x40000, 0x10000, 4) == 2
    ensures Reach(e, 0x40000, 0x10000, 1, 3) == 2
  {
    hide CommonPrefix;
  }

  // ---- Two long copies side by side -------------------------------------------------------------

  const LONG1 := FileMap(0x10000, 0x12000, 1, 0, 3)
  const LONG2 := FileMap(0x20000, 0x22000, 2, 0, 4)

  function LongFiles(): Tree<FileMap> {
    Node(Leaf, LONG1, Node(Leaf, LONG2, Leaf))
  }

  /** The first file is all ones and the second all twos. */
  function LongContents(): Mem {
    x => if 0x10000 <= x < 0x12000 then 1 else if 0x20000 <= x < 0x22000 then 2 else 0
  }

  /** The memory after 5000 bytes of each have been copied side by side. */
  function LongCopied(): Mem {
    Copied(Copied(LongContents(), 0x40000, 0x10000, 5000), 0x40000 + 5000, 0x20000, 5000)
  }

  lemma LongByte(x: int)
    ensures 0x40000 <= x < 0x40000 + 5000 ==> LongCopied()(x) == 1
    ensures 0x40000 + 5000 <= x < 0x40000 + 10000 ==> LongCopied()(x) == 2
    ensures 0x10000 <= x < 0x12000 ==> LongCopied()(x) == 1
    ensures 0x20000 <= x < 0x22000 ==> LongCopied()(x) == 2
  {
    var m1 := Copied(LongContents(), 0x40000, 0x10000, 5000);
    CopiedAt(m1, 0x40000 + 5000, 0x20000, 5000, x);
    CopiedAt(LongContents(), 0x40000, 0x10000, 5000, x);
    if 0x40000 + 5000 <= x < 0x40000 + 10000 {
      CopiedAt(LongContents(), 0x40000, 0x10000, 5000, 0x20000 + (x - (0x40000 + 5000)));
    }
  }

  lemma LongBytes()
    ensures Same(LongCopied(), 0x40000, 0x10000, 5000) && Same(LongCopied(), 0x40000 + 5000, 0x20000, 5000)
    ensures CommonPrefix(LongCopied(), 0x40000, 0x10000, 10000) == 5000
  {
    hide LongCopied, CommonPrefix;
    var m, d1, d2 := LongCopied(), 0x10000 - 0x40000, 0x20000 - (0x40000 + 5000);
    forall x | 0x40000 <= x < 0x40000 + 5000
      ensures EqualAt(m, x, d1)
    {
      LongByte(x);
      LongByte(x + d1);
    }
    forall x | 0x40000 + 5000 <= x < 0x40000 + 10000
      ensures EqualAt(m, x, d2)
    {
      LongByte(x);
      LongByte(x + d2);
    }
    LongByte(0x40000 + 5000);
    LongByte(0x10000 + 5000);
    FirstDiffersIsPrefix(m, 0x40000, 0x10000, 10000, 5000);
  }

  lemma LongFilesAreFound(e: Env)
    requires e.names == LongFiles()
    ensures FileAddress(e, CopyRecord(LONG1, 0x40000, 0x10000).Rec()) == Some(0x10000)
    ensures FileAddress(e, CopyRecord(LONG2, 0x40000 + 5000, 0x20000).Rec()) == Some(0x20000)
    ensures FindRange(LongFiles(), 0x10000, 0x10000 + 5000) == Some(LONG1)
    ensures FindRange(LongFiles(), 0x20000, 0x20000 + 5000) == Some(LONG2)
  {
    assert FindName(LongFiles(), 1) == Some(LONG1);
    assert FindName(LongFiles(), 2) == Some(LONG2);
  }

  lemma LongNeighbours(e: Env, a1: Arrival, a2: Arrival)
    requires a1 == CopyRecord(LONG1, 0x40000, 0x10000) && a2 == CopyRecord(LONG2, 0x40000 + 5000, 0x20000)
    requires FileAddress(e, a1.Rec()) == Some(0x10000) && FileAddress(e, a2.Rec()) == Some(0x20000)
    requires Same(e.mem, 0x40000, 0x10000, 5000) && Same(e.mem, 0x40000 + 5000, 0x20000, 5000)
    requires CommonPrefix(e.mem, 0x40000, 0x10000, 10000) == 5000
    ensures Neighbours(e, a1, a2, 0x10000, 0x20000, 5000, 5000)
    ensures Reach(e, a1.dest, 0x10000, 5000, 5000) == 5000
    ensures a1.dest == 0x40000 && a2.dest == 0x40000 + 5000
    ensures a2.Page() != a1.Page() && PageOffset(a2.dest) != 0
  {
    hide Same, FileAddress, CommonPrefix;
  }

  /** Two copies of 5000 bytes from two files, side by side: the first comparison ends exactly at the seam,
      but the page of the second record starts before it and is skipped. Only the first copy counts. */
  lemma LaterPageLosesCopy(comparer: Comparer)
    ensures var maps, n, dest := LongFiles(), 5000, 0x40000;
      var e := Env(LongCopied(), maps, comparer);
      var v := MemcpyView(maps, MemcpyView(maps, map[], dest, 0x10000, n), dest + n, 0x20000, n);
      && Same(e.mem, dest, 0x10000, n) && Same(e.mem, dest + n, 0x20000, n)
      && Total(Fwrite(e, v, dest, n + n).hits) == n
  {
    hide *;
    var e := Env(LongCopied(), LongFiles(), comparer);
    var a1, a2 := CopyRecord(LONG1, 0x40000, 0x10000), CopyRecord(LONG2, 0x40000 + 5000, 0x20000);
    LongFilesAreFound(e);
    LongBytes();
    FoundView(LongFiles(), map[], LONG1, 0x40000, 0x10000, 5000);
    FoundView(LongFiles(), Insert(map[], a1), LONG2, 0x40000 + 5000, 0x20000, 5000);
    LongNeighbours(e, a1, a2);
    TracedSpec.NothingTraced();
    TwoCopies(e, map[], a1, a2, 0x10000, 0x20000, 5000, 5000);
  }

  // ---- Reading on at the end of the file ----------------------------------------------------------

  /** A file of 16 bytes. */
  const SMALL := FileMap(0x10000, 0x10010, 1, 0, 3)

  /** Three reads of 16 bytes each. The first delivers the file, the others nothing. */
  function ThreeReads(): seq<Request> {
    [Request(0x40000, 16), Request(0x40010, 16), Request(0x40010, 16)]
  }

  lemma CursorsOfReads(r: Reader)
    requires r.cursor == 0
    ensures Cursor(SMALL, r, ThreeReads(), 0) == 0 && Cursor(SMALL, r, ThreeReads(), 1) == 16
    ensures Cursor(SMALL, r, ThreeReads(), 2) == 16 && Cursor(SMALL, r, ThreeReads(), 3) == 16
  {
    var qs := ThreeReads();
    hide Copied, Insert, CopyRecord;
    CursorAtStart(SMALL, r, qs);
    CursorStep(SMALL, r, qs, 1);
    CursorStep(SMALL, r, qs, 2);
    CursorStep(SMALL, r, qs, 3);
    assert qs[..0] == [];
  }

  /** The last read starts the page over, and the bytes in the buffer no longer count in full. */
  lemma EmptyReadsLoseBytes(e: Env, r: Reader)
    requires WellFormed(r.view) && r.cursor == 0 && e.names == Node(Leaf, SMALL, Leaf)
    ensures var r' := ReadAll(SMALL, Some(SMALL), r, ThreeReads());
      && r'.cursor == 16 && Same(r'.mem, 0x40000, 0x10000, 16)
      && Total(Fwrite(e.(mem := r'.mem), r'.view, 0x40000, 16).hits) < 16
  {
    hide *;
    var qs := ThreeReads();
    CursorsOfReads(r);
    OneFile(e.names);
    ReadsFit(r);
    var r' := ReadAll(SMALL, Some(SMALL), r, qs);
    BufferSame(SMALL, r, qs);
    ReadRunThenWrite(e, SMALL, r, qs);
    NoAlarm(e, 0x40000, 0x10000, 16);
    ReadsKeepWellFormed(r, qs);
    FwriteSound(e.(mem := r'.mem), r'.view, 0x40000, 16);
  }

  lemma OneFile(names: Tree<FileMap>)
    requires names == Node(Leaf, SMALL, Leaf)
    ensures NamesAscend(InOrder(names)) && SMALL in InOrder(names) && InSpace(SMALL)
    ensures SMALL.start == 0x10000 && SMALL.offset == 0
  {
    assert InOrder(names) == [SMALL];
  }

  lemma ReadsFit(r: Reader)
    requires r.cursor == 0
    requires Cursor(SMALL, r, ThreeReads(), 0) == 0 && Cursor(SMALL, r, ThreeReads(), 1) == 16
    requires Cursor(SMALL, r, ThreeReads(), 2) == 16 && Cursor(SMALL, r, ThreeReads(), 3) == 16
    ensures InMapping(SMALL, r.cursor) && ThreeReads() != [] && ThreeReads()[0].buf == 0x40000
    ensures forall q :: q in ThreeReads() ==> Clear(SMALL, q)
    ensures OneBuffer(SMALL, r, ThreeReads()) && ReadAfterNothing(SMALL, r, ThreeReads())
    ensures ReadAll(SMALL, Some(SMALL), r, ThreeReads()).cursor == 16
  {
    var qs := ThreeReads();
    assert qs[..3] == qs;
    CursorIs(SMALL, r, qs, 3);
    hide Cursor, ReadAll;
    assert AfterNothing(SMALL, r, qs, 2);
  }

  lemma ReadsKeepWellFormed(r: Reader, qs: seq<Request>)
    requires WellFormed(r.view) && InMapping(SMALL, r.cursor) && forall q :: q in qs ==> Clear(SMALL, q)
    ensures WellFormed(ReadAll(SMALL, Some(SMALL), r, qs).view)
  {
    hide ReadAll;
    ReadsRecordCursor(SMALL, r, qs, RunRecords(SMALL, r, qs));
    InsertAllKeepsWellFormed(r.view, RunRecords(SMALL, r, qs));
  }

  // ---- Counting behind the end of a file ----------------------------------------------------------

  /** One byte is the last of its mapping and copied; 100 bytes are written, and the memory behind the
      mapping goes on like the buffer. All 100 count, of which 99 are bytes of no file. */
  lemma CountsBehindFile(e: Env)
    requires e.mem == (x => 1) && e.names == Node(Leaf, LOWER, Leaf)
    ensures var src, dest, n := 0x10FFF, 0x20000, 100;
      var hits := Fwrite(e, MemcpyView(e.names, map[], dest, src, 1), dest, n).hits;
      && src + 1 == LOWER.tail
      && Total(hits) == n && Hit(dest, n, src) in hits && !InFile(LOWER, src, n)
  {
    var src, dest, n := 0x10FFF, 0x20000, 100;
    var a := CopyRecord(LOWER, dest, src);
    assert FindName(e.names, LOWER.fileName) == Some(LOWER);
    assert FindRange(e.names, src, src + 1) == Some(LOWER);
    AllOnes(e.mem, dest, src, n);
    assert FileAddress(e, a.Rec()) == Some(src);
    TracedSpec.NothingTraced();
    hide *;
    NoAlarm(e, dest, src, n);
    FoundView(e.names, map[], LOWER, dest, src, 1);
    CopyGoesTo(LOWER, dest, src);
    RecordThenWrite(e, map[], a, src, n);
    InsertedCopy(e, map[], a, n);
    CopyScanned(e, a, src, n);
    KeepsHits(e, Insert(map[], a), dest, dest + n, a.Page() + 1, Scan(dest + n, [Hit(dest, n, src)], 0));
    LeavesLower();
  }

  lemma AllOnes(mem: Mem, dest: nat, src: nat, n: nat)
    requires mem == (x => 1)
    ensures Same(mem, dest, src, n)
  {
  }

  lemma LeavesLower()
    ensures !InFile(LOWER, 0x10FFF, 100) && LOWER.tail == 0x11000
  {
  }

  /** Hits are never taken back. */
  lemma {:induction false} KeepsHits(e: Env, v: View, buf: nat, tail: nat, page: nat, s: Scan)
    ensures forall h :: h in s.hits ==> h in ScanPages(e, v, buf, tail, page, s).hits
    decreases PageNum(tail) + 1 - page
  {
    if page <= PageNum(tail) {
      if page in v { PageKeepsHits(e, buf, tail, page, v[page], 0, s); }
      KeepsHits(e, v, buf, tail, page + 1, VisitPage(e, v, buf, tail, page, s));
    }
  }

  lemma {:induction false} PageKeepsHits(e: Env, buf: nat, tail: nat, page: nat, recs: seq<MemRec>, k: nat, s: Scan)
    requires k <= |recs|
    ensures forall h :: h in s.hits ==> h in ScanPage(e, buf, tail, page, recs, k, s).hits
    decreases |recs| - k
  {
    if k < |recs| {
      PageKeepsHits(e, buf, tail, page, recs, k + 1, StepRec(e, buf, tail, page, recs[k], s));
    }
  }
}
