/** Copy in, write out: what ts_fwrite counts for a buffer that ts_memcpy has just filled. */
module EndToEnd {
  import opened Addr
  import opened Bst
  import opened FileMaps
  import opened MatchSpec
  import opened Memory
  import ReadSpec
  import opened TraceSpec

  // ---- Not-found accounting ------------------------------------------------------------------

  lemma {:induction false} NotFoundTelescopes(e: Env, v: View, buf: nat, tail: nat, page: nat, s: Scan)
    requires tail - GetAddr(page, 0) < 0x8000_0000
    ensures var s' := ScanPages(e, v, buf, tail, page, s);
      && s.notFound <= s'.notFound
      && s'.notFound <= s.notFound + (if page <= PageNum(tail) then tail - GetAddr(page, 0) else 0)
      && ((forall p :: page <= p <= PageNum(tail) ==> p !in v) && s.diffPos == 0 && page <= PageNum(tail) ==>
            s'.notFound == s.notFound + (tail - GetAddr(page, 0)))
    decreases PageNum(tail) + 1 - page
  {
    if page <= PageNum(tail) {
      var s1 := VisitPage(e, v, buf, tail, page, s);
      if page in v { PageKeepsNotFound(e, buf, tail, page, v[page], 0, s); }
      NotFoundTelescopes(e, v, buf, tail, page + 1, s1);
    }
  }

  lemma {:induction false} PageKeepsNotFound(e: Env, buf: nat, tail: nat, page: nat, recs: seq<MemRec>, k: nat, s: Scan)
    requires k <= |recs|
    ensures ScanPage(e, buf, tail, page, recs, k, s).notFound == s.notFound
    decreases |recs| - k
  {
    if k < |recs| {
      PageKeepsNotFound(e, buf, tail, page, recs, k + 1, StepRec(e, buf, tail, page, recs[k], s));
    }
  }

  /** One write adds at most its length plus the buffer's offset in its page to
      ts_write_not_found_size, and exactly that when no page of the range is traced. */
  lemma NotFoundBounded(e: Env, v: View, buf: nat, length: nat)
    requires length + PAGE_SIZE - 1 < 0x8000_0000
    ensures 0 <= Fwrite(e, v, buf, length).notFound <= length + PageOffset(buf)
    ensures (forall p :: PageNum(buf) <= p <= PageNum(buf + length) ==> p !in v) ==>
      Fwrite(e, v, buf, length).notFound == length + PageOffset(buf)
  {
    NotFoundTelescopes(e, v, buf, buf + length, PageNum(buf), Scan(0, [], 0));
  }

  // ---- Parts of a write that add nothing ------------------------------------------------------

  /** Once diffPos has reached the tail, comparisons are empty. */
  lemma {:induction false} PageAfterTail(e: Env, buf: nat, tail: nat, page: nat, recs: seq<MemRec>, k: nat, s: Scan)
    requires k <= |recs| && s.diffPos == tail
    ensures var s' := ScanPage(e, buf, tail, page, recs, k, s);
      && s'.diffPos == tail && Total(s'.hits) == Total(s.hits)
      && forall h :: h in s'.hits ==> h in s.hits || h.len == 0
    decreases |recs| - k
  {
    if k < |recs| {
      var at := GetAddr(page, recs[k].pageOffset);
      var s1 := StepRec(e, buf, tail, page, recs[k], s);
      if Applies(at, buf, tail, s.diffPos) && CmpWrite(e, at, recs[k], tail).Some? {
        TotalOfOneMore(s.hits, CmpWrite(e, at, recs[k], tail).value);
      }
      PageAfterTail(e, buf, tail, page, recs, k + 1, s1);
    }
  }

  lemma {:induction false} PagesAfterTail(e: Env, v: View, buf: nat, tail: nat, page: nat, s: Scan)
    requires s.diffPos == tail
    ensures Total(ScanPages(e, v, buf, tail, page, s).hits) == Total(s.hits)
    ensures forall h :: h in ScanPages(e, v, buf, tail, page, s).hits ==> h in s.hits || h.len == 0
    decreases PageNum(tail) + 1 - page
  {
    if page <= PageNum(tail) {
      if page in v { PageAfterTail(e, buf, tail, page, v[page], 0, s); }
      PagesAfterTail(e, v, buf, tail, page + 1, VisitPage(e, v, buf, tail, page, s));
    }
  }

  /** On later pages the start of the buffer plays no part. */
  lemma {:induction false} PageBufIrrelevant(e: Env, buf: nat, buf': nat, tail: nat, page: nat,
                                              recs: seq<MemRec>, k: nat, s: Scan)
    requires k <= |recs| && buf <= GetAddr(page, 0) && buf' <= GetAddr(page, 0)
    ensures ScanPage(e, buf, tail, page, recs, k, s) == ScanPage(e, buf', tail, page, recs, k, s)
    decreases |recs| - k
  {
    if k < |recs| {
      PageBufIrrelevant(e, buf, buf', tail, page, recs, k + 1, StepRec(e, buf, tail, page, recs[k], s));
    }
  }

  lemma {:induction false} PagesBufIrrelevant(e: Env, v: View, buf: nat, buf': nat, tail: nat, page: nat, s: Scan)
    requires buf <= GetAddr(page, 0) && buf' <= GetAddr(page, 0)
    ensures ScanPages(e, v, buf, tail, page, s) == ScanPages(e, v, buf', tail, page, s)
    decreases PageNum(tail) + 1 - page
  {
    if page <= PageNum(tail) {
      if page in v { PageBufIrrelevant(e, buf, buf', tail, page, v[page], 0, s); }
      PagesBufIrrelevant(e, v, buf, buf', tail, page + 1, VisitPage(e, v, buf, tail, page, s));
    }
  }

  /** What the pages behind the first one can add at most, when the first one added nothing. */
  lemma LaterPagesAddLess(e: Env, v: View, buf: nat, tail: nat)
    requires WellFormed(v) && buf < tail
    ensures Total(ScanPages(e, v, buf, tail, PageNum(buf) + 1, Scan(0, [], 0)).hits) < tail - buf
  {
    var page := PageNum(buf) + 1;
    var buf' := GetAddr(page, 0);
    if page <= PageNum(tail) {
      PagesBufIrrelevant(e, v, buf, buf', tail, page, Scan(0, [], 0));
      PagesSound(e, v, buf', tail, page, Scan(0, [], 0));
      TotalWithin(e, v, buf', tail, ScanPages(e, v, buf', tail, page, Scan(0, [], 0)));
    }
  }

  // ---- The record just made ---------------------------------------------------------------------

  lemma FwriteOpens(e: Env, v: View, buf: nat, n: nat)
    ensures Fwrite(e, v, buf, n)
      == ScanPages(e, v, buf, buf + n, PageNum(buf) + 1, VisitPage(e, v, buf, buf + n, PageNum(buf), Scan(0, [], 0)))
  {
    assert PageNum(buf) <= PageNum(buf + n);
  }

  /** The first page of the write: everything before the new record is passed over. */
  lemma FirstPage(e: Env, v: View, a: Arrival, n: nat)
    requires WellFormed(v)
    ensures var v' := Insert(v, a);
      VisitPage(e, v', a.dest, a.dest + n, a.Page(), Scan(0, [], 0))
        == StepRec(e, a.dest, a.dest + n, a.Page(), a.Rec(), Scan(0, [], 0))
  {
    var v' := Insert(v, a);
    var recs := v'[a.Page()];
    InsertKeepsWellFormed(v, a);
    var k := |recs| - 1;
    assert recs[k] == a.Rec() && Ascending(recs);
    PassOver(e, a.dest, a.dest + n, a.Page(), recs, 0, k, Scan(0, [], 0));
    assert ScanPage(e, a.dest, a.dest + n, a.Page(), recs, k + 1,
                    StepRec(e, a.dest, a.dest + n, a.Page(), a.Rec(), Scan(0, [], 0)))
      == StepRec(e, a.dest, a.dest + n, a.Page(), a.Rec(), Scan(0, [], 0));
  }

  /** Two mappings put the same file offset at the same address. */
  predicate SameShift(m: FileMap, m': FileMap) {
    (m'.start - m'.offset - (m.start - m.offset)) % TWO64 == 0
  }

  /** The record of a copy out of m, read back through the mapping m' that has its name: it is used
      when the offset of m' does not exceed the recorded one, and then leads back to the source
      exactly when the two mappings agree - through the 64-bit wrap-around both when the offset
      is recorded and when it is used. */
  lemma RecordPointsBack(e: Env, m: FileMap, m': FileMap, dest: nat, src: nat)
    requires FindName(e.names, m.fileName) == Some(m') && src < TWO64
    ensures var from := FileAddress(e, CopyRecord(m, dest, src).Rec());
      && (from.Some? <==> m'.offset <= U64(m.offset + src - m.start))
      && (from.Some? ==> (from.value == src <==> SameShift(m, m')))
  {
    var x, d := m.offset + src - m.start, m'.start - m'.offset - (m.start - m.offset);
    ModOfSum(m'.start - m'.offset, x);
    assert m'.start - m'.offset + x == src + d;
    ModOfShift(src, d);
  }

  lemma ModOfSum(a: int, x: int)
    ensures (a + x % TWO64) % TWO64 == (a + x) % TWO64
  {
  }

  lemma ModOfShift(src: nat, d: int)
    requires src < TWO64
    ensures (src + d) % TWO64 == src <==> d % TWO64 == 0
  {
  }

  /** The next page makes up for the byte a false alarm leaves out: the byte is the first of its
      page, and the record there points at an equal file byte. */
  ghost predicate NextPageCounts(e: Env, v: View, at: nat) {
    var recs := Recs(v, PageNum(at));
    && PageOffset(at) == 0 && recs != [] && recs[0].pageOffset == 0
    && FileAddress(e, recs[0]).Some? && EqualAt(e.mem, at, FileAddress(e, recs[0]).value - at)
  }

  /** A scan one byte before the tail: only a record at that byte, first of its page, can add to it. */
  lemma OneByteLeft(e: Env, v: View, buf: nat, at: nat, s: Scan)
    requires WellFormed(v) && s.diffPos == at && buf < at
    ensures Total(ScanPages(e, v, buf, at + 1, PageNum(buf) + 1, s).hits)
         == Total(s.hits) + if NextPageCounts(e, v, at) then 1 else 0
  {
    SkipTo(e, v, buf, at, PageNum(buf) + 1, s);
    assert PageOffset(at) == 0 ==> PageNum(buf) < PageNum(at);
  }

  /** Pages that start before `at` are skipped; the page that starts at `at`, or the one behind it,
      settles the count. */
  lemma {:induction false} SkipTo(e: Env, v: View, buf: nat, at: nat, page: nat, s: Scan)
    requires WellFormed(v) && s.diffPos == at && buf < at && PageNum(buf) < page
    ensures Total(ScanPages(e, v, buf, at + 1, page, s).hits)
         == Total(s.hits) + if page <= PageNum(at) && NextPageCounts(e, v, at) then 1 else 0
    decreases PageNum(at + 1) + 1 - page
  {
    if page <= PageNum(at + 1) {
      if GetAddr(page, 0) < at {
        SkipTo(e, v, buf, at, page + 1, s);
        assert PageOffset(at) == 0 ==> page < PageNum(at);
      } else if GetAddr(page, 0) == at {
        LastByte(e, v, buf, at, page, s);
      } else {
        assert GetAddr(page, 0) == at + 1 && page == PageNum(at + 1);
        if page in v { PageBehindLast(e, buf, at, page, v[page], 0, s); }
      }
    }
  }

  /** Records on a page that starts at the tail compare nothing. */
  lemma {:induction false} PageBehindLast(e: Env, buf: nat, at: nat, page: nat, recs: seq<MemRec>, k: nat, s: Scan)
    requires k <= |recs| && at <= s.diffPos <= at + 1
    requires forall j :: k <= j < |recs| ==> GetAddr(page, recs[j].pageOffset) >= at + 1
    ensures Total(ScanPage(e, buf, at + 1, page, recs, k, s).hits) == Total(s.hits)
    ensures at <= ScanPage(e, buf, at + 1, page, recs, k, s).diffPos <= at + 1
    decreases |recs| - k
  {
    if k < |recs| {
      var x := GetAddr(page, recs[k].pageOffset);
      var s1 := StepRec(e, buf, at + 1, page, recs[k], s);
      if Applies(x, buf, at + 1, s.diffPos) && CmpWrite(e, x, recs[k], at + 1).Some? {
        TotalOfOneMore(s.hits, CmpWrite(e, x, recs[k], at + 1).value);
      }
      PageBehindLast(e, buf, at, page, recs, k + 1, s1);
    }
  }

  /** The page that starts at the last byte. */
  lemma LastByte(e: Env, v: View, buf: nat, at: nat, page: nat, s: Scan)
    requires WellFormed(v) && s.diffPos == at && buf < at && GetAddr(page, 0) == at
    ensures Total(ScanPages(e, v, buf, at + 1, page, s).hits)
         == Total(s.hits) + if NextPageCounts(e, v, at) then 1 else 0
  {
    assert page == PageNum(at) == PageNum(at + 1);
    var s' := VisitPage(e, v, buf, at + 1, page, s);
    assert ScanPages(e, v, buf, at + 1, page, s) == ScanPages(e, v, buf, at + 1, page + 1, s') == s';
    if page in v && v[page] != [] {
      var recs := v[page];
      var s1 := StepRec(e, buf, at + 1, page, recs[0], s);
      var x := GetAddr(page, recs[0].pageOffset);
      if Applies(x, buf, at + 1, at) && CmpWrite(e, x, recs[0], at + 1).Some? {
        TotalOfOneMore(s.hits, CmpWrite(e, x, recs[0], at + 1).value);
      }
      PageBehindLast(e, buf, at, page, recs, 1, s1);
    }
  }

  // ---- The end-to-end theorem ---------------------------------------------------------------------

  /** What the scan of the first page leaves, from a record that leads back to the source or that
      is not used. */
  lemma CopyScanned(e: Env, a: Arrival, src: nat, n: nat)
    requires FileAddress(e, a.Rec()).None? || FileAddress(e, a.Rec()) == Some(src)
    requires Same(e.mem, a.dest, src, n)
    ensures var len := if Alarm(e, a.dest, src, n) then n - 1 else n;
      StepRec(e, a.dest, a.dest + n, a.Page(), a.Rec(), Scan(0, [], 0))
        == if FileAddress(e, a.Rec()).Some? then Scan(a.dest + len, [Hit(a.dest, len, src)], 0) else Scan(0, [], 0)
  {
    hide FileAddress;
    FirstDiffersIsPrefix(e.mem, a.dest, src, n, n);
    assert GetAddr(a.Page(), a.Rec().pageOffset) == a.dest;
  }

  /** The pages behind the first one, when the first one has counted len bytes. */
  lemma AfterCopyScanned(e: Env, v: View, dest: nat, src: nat, n: nat, len: nat)
    requires WellFormed(v) && len == if Alarm(e, dest, src, n) then n - 1 else n
    ensures Total(ScanPages(e, v, dest, dest + n, PageNum(dest) + 1, Scan(dest + len, [Hit(dest, len, src)], 0)).hits)
         == if Alarm(e, dest, src, n) && !NextPageCounts(e, v, dest + n - 1) then n - 1 else n
  {
    hide *;
    AlarmIsShort(e, dest, src, n);
    var s1 := Scan(dest + len, [Hit(dest, len, src)], 0);
    TotalOfOneMore([], Hit(dest, len, src));
    TotalOfNone();
    assert [] + s1.hits == s1.hits;
    if Alarm(e, dest, src, n) {
      OneByteLeft(e, v, dest, dest + n - 1, s1);
    } else {
      PagesAfterTail(e, v, dest, dest + n, PageNum(dest) + 1, s1);
    }
  }

  lemma TotalOfNone()
    ensures Total([]) == 0
  {
  }

  /** The page that can make up for a false alarm is not the page of the copy. */
  lemma NextPageSame(e: Env, v: View, a: Arrival, src: nat, n: nat)
    requires Alarm(e, a.dest, src, n)
    ensures NextPageCounts(e, Insert(v, a), a.dest + n - 1) <==> NextPageCounts(e, v, a.dest + n - 1)
  {
    var at := a.dest + n - 1;
    assert PageOffset(at) == 0 ==> PageNum(at) != PageNum(a.dest);
  }

  lemma InsertedCopy(e: Env, v: View, a: Arrival, n: nat)
    requires WellFormed(v)
    ensures WellFormed(Insert(v, a))
    ensures Fwrite(e, Insert(v, a), a.dest, n)
      == ScanPages(e, Insert(v, a), a.dest, a.dest + n, a.Page() + 1,
                   StepRec(e, a.dest, a.dest + n, a.Page(), a.Rec(), Scan(0, [], 0)))
  {
    hide *;
    InsertKeepsWellFormed(v, a);
    FwriteOpens(e, Insert(v, a), a.dest, n);
    FirstPage(e, v, a, n);
    IsOnPage(a);
  }

  lemma IsOnPage(a: Arrival)
    ensures a.Page() == PageNum(a.dest)
  {
  }

  /** A write of n bytes from an address that a record has just been made for, when the record leads
      to equal bytes or is not used at all. */
  lemma RecordThenWrite(e: Env, v: View, a: Arrival, src: nat, n: nat)
    requires WellFormed(v) && Same(e.mem, a.dest, src, n)
    requires FileAddress(e, a.Rec()).None? || FileAddress(e, a.Rec()) == Some(src)
    ensures Total(Fwrite(e, Insert(v, a), a.dest, n).hits) == n <==>
      || n == 0
      || (FileAddress(e, a.Rec()).Some? && (Alarm(e, a.dest, src, n) ==> NextPageCounts(e, v, a.dest + n - 1)))
  {
    hide *;
    var v' := Insert(v, a);
    InsertedCopy(e, v, a, n);
    IsOnPage(a);
    AlarmIsShort(e, a.dest, src, n);
    CopyScanned(e, a, src, n);
    if FileAddress(e, a.Rec()).Some? {
      AfterCopyScanned(e, v', a.dest, src, n, if Alarm(e, a.dest, src, n) then n - 1 else n);
      if Alarm(e, a.dest, src, n) { NextPageSame(e, v, a, src, n); }
    } else if n > 0 {
      LaterPagesAddLess(e, v', a.dest, a.dest + n);
    } else {
      FwriteSound(e, v', a.dest, n);
    }
  }

  /** From any trace, a copy of n bytes out of mapping m followed by a write of exactly these bytes
      adds exactly n to ts_write_same_size if and only if the record is usable - the offset of the
      mapping of that name does not exceed the recorded one - and the comparer raises no false alarm
      that the next page does not make up for. With the byte loop there is no alarm at all; with the
      AVX2 comparer there is one for lengths 2 and 3 only. */
  lemma CopyThenWrite(e: Env, v: View, m: FileMap, m': FileMap, dest: nat, src: nat, n: nat)
    requires WellFormed(v) && FindName(e.names, m.fileName) == Some(m') && SameShift(m, m') && src < TWO64
    requires Same(e.mem, dest, src, n)
    ensures Total(Fwrite(e, Insert(v, CopyRecord(m, dest, src)), dest, n).hits) == n <==>
      || n == 0
      || (m'.offset <= U64(m.offset + src - m.start)
          && (Alarm(e, dest, src, n) ==> NextPageCounts(e, v, dest + n - 1)))
  {
    hide *;
    var a := CopyRecord(m, dest, src);
    CopyGoesTo(m, dest, src);
    RecordPointsBack(e, m, m', dest, src);
    RecordThenWrite(e, v, a, src, n);
  }

  lemma CopyGoesTo(m: FileMap, dest: nat, src: nat)
    ensures CopyRecord(m, dest, src).dest == dest
  {
  }

  // ---- Whole operations, one after the other -------------------------------------------------------

  lemma CopiedSame(mem: Mem, dest: nat, src: nat, n: nat)
    requires dest + n <= src || src + n <= dest
    ensures Same(Copied(mem, dest, src, n), dest, src, n)
  {
    var mem' := Copied(mem, dest, src, n);
    var d := src - dest;
    assert forall x :: dest <= x < dest + n ==> EqualAt(mem', x, d);
  }

  /** The trace after ts_memcpy. */
  function MemcpyView(maps: Tree<FileMap>, v: View, dest: nat, src: nat, n: nat): View {
    match FindRange(maps, src, src + n)
    case None => v
    case Some(m) => Insert(v, CopyRecord(m, dest, src))
  }

  lemma FoundView(maps: Tree<FileMap>, v: View, m: FileMap, dest: nat, src: nat, n: nat)
    requires FindRange(maps, src, src + n) == Some(m)
    ensures MemcpyView(maps, v, dest, src, n) == Insert(v, CopyRecord(m, dest, src))
  {
  }

  lemma Unwrapped(m: FileMap, src: nat)
    requires m.start <= src <= m.tail && InSpace(m)
    ensures m.offset <= U64(m.offset + src - m.start)
  {
  }

  /** A neighbour that starts where the range ends is usable exactly when it does not clash. */
  lemma NeighbourAbove(o: FileMap, src: nat, n: nat)
    requires o.start == src + n && n > 0 && InSpace(o)
    ensures o.offset <= U64(o.offset + src - o.start) <==> !Clashes(o, src, n)
  {
  }

  /** What is found for a source inside a mapping is in the name tree, and its record is usable unless
      it clashes. */
  lemma FoundUsable(maps: Tree<FileMap>, names: Tree<FileMap>, src: nat, n: nat) returns (f: FileMap)
    requires Registered(InOrder(maps), names) && Inside(InOrder(maps), src, n) && n > 0
    ensures FindRange(maps, src, src + n) == Some(f) && f in InOrder(maps)
    ensures FindName(names, f.fileName) == Some(f) && SameShift(f, f) && src < TWO64
    ensures f.offset <= U64(f.offset + src - f.start) <==> !Clashes(f, src, n)
  {
    FoundMapping(maps, src, n);
    f := FindRange(maps, src, src + n).value;
    hide FindRange, InOrder, DisjointMappings, NamesAscend, FindName, U64;
    FindNameExact(names, f);
    if f.start == src + n {
      NeighbourAbove(f, src, n);
    } else {
      Unwrapped(f, src);
    }
  }

  /** All n bytes count when ts_memcpy(dest, src, n) is followed by ts_fwrite of the copy; e has the
      memory after the copy. */
  ghost predicate Counts(e: Env, maps: Tree<FileMap>, v: View, dest: nat, src: nat, n: nat) {
    Total(Fwrite(e, MemcpyView(maps, v, dest, src, n), dest, n).hits) == n
  }

  /** One tree of mappings: all n bytes count exactly when the mapping found does not clash and there is
      no false alarm that the next page does not make up for. */
  lemma TreeCounts(e: Env, maps: Tree<FileMap>, v: View, dest: nat, src: nat, n: nat)
    requires WellFormed(v) && Registered(InOrder(maps), e.names) && Inside(InOrder(maps), src, n)
    requires Same(e.mem, dest, src, n)
    ensures FindRange(maps, src, src + n).Some? && FindRange(maps, src, src + n).value in InOrder(maps)
    ensures Counts(e, maps, v, dest, src, n) <==>
      && !Clashes(FindRange(maps, src, src + n).value, src, n)
      && (Alarm(e, dest, src, n) ==> NextPageCounts(e, v, dest + n - 1))
  {
    hide *;
    FoundMapping(maps, src, n) by { RegisteredIsDisjoint(InOrder(maps), e.names); }
    if n > 0 {
      var f := FoundUsable(maps, e.names, src, n);
      CopyThenWrite(e, v, f, f, dest, src, n);
      FoundView(maps, v, f, dest, src, n);
      CountsIs(e, maps, v, dest, src, n);
    } else {
      EmptyCopyCounts(e, maps, v, dest, src);
      NoAlarm(e, dest, src, n);
      NoClash(FindRange(maps, src, src + n).value, src);
    }
  }

  lemma RegisteredIsDisjoint(s: seq<FileMap>, names: Tree<FileMap>)
    requires Registered(s, names)
    ensures DisjointMappings(s)
  {
  }

  lemma NoClash(o: FileMap, src: nat)
    ensures !Clashes(o, src, 0)
  {
  }

  lemma CountsIs(e: Env, maps: Tree<FileMap>, v: View, dest: nat, src: nat, n: nat)
    ensures Counts(e, maps, v, dest, src, n) <==> Total(Fwrite(e, MemcpyView(maps, v, dest, src, n), dest, n).hits) == n
  {
  }

  /** The mappings as a caller knows them, without the shape of the tree they are in: whatever that
      shape is, all n bytes count, if and only if no mapping starts where the source ends with an
      offset of n or more, and there is no false alarm that the next page does not make up for. */
  lemma EveryTreeCounts(e: Env, s: seq<FileMap>, v: View, dest: nat, src: nat, n: nat)
    requires WellFormed(v) && Registered(s, e.names) && Inside(s, src, n)
    requires Same(e.mem, dest, src, n)
    ensures (forall t :: InOrder(t) == s ==> Counts(e, t, v, dest, src, n))
       <==> !Clash(s, src, n) && (Alarm(e, dest, src, n) ==> NextPageCounts(e, v, dest + n - 1))
  {
    hide *;
    AlarmIsShort(e, dest, src, n);
    forall t | InOrder(t) == s
      ensures !Clash(s, src, n) && (Alarm(e, dest, src, n) ==> NextPageCounts(e, v, dest + n - 1)) ==>
        Counts(e, t, v, dest, src, n)
    {
      TreeCounts(e, t, v, dest, src, n);
      ClashIs(s, src, n, FindRange(t, src, src + n).value);
    }
    if Clash(s, src, n) {
      var k := ClashAt(s, e.names, src, n);
      RootedLists(s, k);
      RootIsFound(s, k, src, src + n);
      TreeCounts(e, Rooted(s, k), v, dest, src, n);
    } else {
      SpineLists(s);
      TreeCounts(e, Spine(s), v, dest, src, n);
    }
  }

  lemma ClashIs(s: seq<FileMap>, src: nat, n: nat, o: FileMap)
    ensures o in s && Clashes(o, src, n) ==> Clash(s, src, n)
  {
  }

  lemma ClashAt(s: seq<FileMap>, names: Tree<FileMap>, src: nat, n: nat) returns (k: nat)
    requires Clash(s, src, n) && Registered(s, names)
    ensures k < |s| && Clashes(s[k], src, n) && Touches(s[k], src, src + n) && s[k].start <= s[k].tail
  {
    var o :| o in s && Clashes(o, src, n);
    k :| 0 <= k < |s| && s[k] == o;
  }

  /** So without such a neighbour, all n bytes count with the byte loop for every n, and with the AVX2
      comparer for every n other than 2 and 3. */
  lemma WholeCopyCounts(e: Env, maps: Tree<FileMap>, v: View, dest: nat, src: nat, n: nat)
    requires WellFormed(v) && Registered(InOrder(maps), e.names) && Inside(InOrder(maps), src, n)
    requires !Clash(InOrder(maps), src, n) && (dest + n <= src || src + n <= dest)
    ensures var e' := e.(mem := Copied(e.mem, dest, src, n));
      e.comparer.ByteLoop? || (n != 2 && n != 3) ==> Counts(e', maps, v, dest, src, n)
  {
    hide *;
    var e' := e.(mem := Copied(e.mem, dest, src, n));
    CopiedSame(e.mem, dest, src, n);
    NoAlarm(e', dest, src, n);
    TreeCounts(e', maps, v, dest, src, n);
    ClashIs(InOrder(maps), src, n, FindRange(maps, src, src + n).value);
  }

  lemma EmptyCopyCounts(e: Env, maps: Tree<FileMap>, v: View, dest: nat, src: nat)
    requires WellFormed(v)
    ensures Counts(e, maps, v, dest, src, 0)
  {
    hide *;
    CountsIs(e, maps, v, dest, src, 0);
    MemcpyKeepsWellFormed(maps, v, dest, src, 0);
    FwriteSound(e, MemcpyView(maps, v, dest, src, 0), dest, 0);
  }

  lemma MemcpyKeepsWellFormed(maps: Tree<FileMap>, v: View, dest: nat, src: nat, n: nat)
    requires WellFormed(v)
    ensures WellFormed(MemcpyView(maps, v, dest, src, n))
  {
    hide WellFormed, Insert;
    if FindRange(maps, src, src + n).Some? {
      InsertKeepsWellFormed(v, CopyRecord(FindRange(maps, src, src + n).value, dest, src));
    }
  }

  /** The same for ts_read: what it has put into a buffer counts as same when it is written. */
  lemma ReadThenWriteCounts(e: Env, r: ReadSpec.Reader, m: FileMap, buf: nat, nbytes: nat)
    requires WellFormed(r.view) && NamesAscend(InOrder(e.names)) && m in InOrder(e.names) && InSpace(m)
    requires ReadSpec.InMapping(m, r.cursor) && ReadSpec.Clear(m, ReadSpec.Request(buf, nbytes))
    ensures var r' := ReadSpec.Read(m, Some(m), r, ReadSpec.Request(buf, nbytes));
      var left := m.offset + (m.tail - m.start) - r.cursor;
      var n := r'.cursor - r.cursor;
      && n == (if left < nbytes then left else nbytes)
      && (e.comparer.ByteLoop? || (n != 2 && n != 3) ==>
            Total(Fwrite(e.(mem := r'.mem), r'.view, buf, n).hits) == n)
  {
    hide *;
    ReadSpec.InMappingIs(m, r.cursor);
    ReadIsCopy(r, m, buf, nbytes);
    var src, n := m.start + (r.cursor - m.offset), ReadSpec.CopyLen(m, r.cursor, nbytes);
    FindNameExact(e.names, m);
    ReadApart(m, r.cursor, buf, nbytes);
    CopiedSame(r.mem, buf, src, n);
    Unwrapped(m, src);
    SelfShift(m);
    var e' := e.(mem := Copied(r.mem, buf, src, n));
    CopyThenWrite(e', r.view, m, m, buf, src, n);
    NoAlarm(e', buf, src, n);
    assert ReadSpec.Read(m, Some(m), r, ReadSpec.Request(buf, nbytes)).cursor - r.cursor == n;
  }

  lemma SelfShift(m: FileMap)
    ensures SameShift(m, m)
  {
  }

  /** What a read copies from and to does not overlap. */
  lemma ReadApart(m: FileMap, cursor: nat, buf: nat, nbytes: nat)
    requires ReadSpec.InMapping(m, cursor) && ReadSpec.Clear(m, ReadSpec.Request(buf, nbytes))
    ensures var src, n := m.start + (cursor - m.offset), ReadSpec.CopyLen(m, cursor, nbytes);
      && src < TWO64 && (buf + n <= src || src + n <= buf)
  {
  }

  lemma ReadIsCopy(r: ReadSpec.Reader, m: FileMap, buf: nat, nbytes: nat)
    requires ReadSpec.InMapping(m, r.cursor)
    ensures var src, left := m.start + (r.cursor - m.offset), m.offset + (m.tail - m.start) - r.cursor;
      var n := if left < nbytes then left else nbytes;
      && src <= m.tail && ReadSpec.CopyLen(m, r.cursor, nbytes) == n
      && ReadSpec.Read(m, Some(m), r, ReadSpec.Request(buf, nbytes))
         == ReadSpec.Reader(Copied(r.mem, buf, src, n), r.cursor + n, Insert(r.view, CopyRecord(m, buf, src)))
  {
    hide Copied, Insert, CopyRecord;
  }
}
