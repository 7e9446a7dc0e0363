/** A run of ts_read calls that fill one buffer, piece by piece, and one write of what they delivered.
    The first record accounts for everything, as long as its page is not started over: that happens
    when a read that delivered nothing is followed by another one at the same place. */
module ReadRuns {
  import opened Addr
  import opened Bst
  import opened EndToEnd
  import opened FileMaps
  import opened MatchSpec
  import opened Memory
  import opened MoveToEnd
  import opened ReadSpec
  import opened TraceSpec

  // ---- What is left of the first of a run of insertions ----------------------------------------

  ghost predicate Ordered(arrivals: seq<Arrival>) {
    forall i, j :: 0 <= i < j < |arrivals| ==> arrivals[i].dest <= arrivals[j].dest
  }

  /** Insertion i is at the address of the one before, behind the first address but on its page. */
  predicate Repeat(arrivals: seq<Arrival>, i: nat)
    requires 0 < i < |arrivals|
  {
    && arrivals[i].dest == arrivals[i - 1].dest && arrivals[i].dest != arrivals[0].dest
    && arrivals[i].Page() == arrivals[0].Page()
  }

  ghost predicate Repeats(arrivals: seq<Arrival>) {
    exists i :: 0 < i < |arrivals| && Repeat(arrivals, i)
  }

  /** What happens at the first address happens with the same record. */
  ghost predicate OneRecord(arrivals: seq<Arrival>) {
    forall i :: 0 <= i < |arrivals| && arrivals[i].dest == arrivals[0].dest ==> arrivals[i].Rec() == arrivals[0].Rec()
  }

  ghost predicate HasOffset(s: seq<MemRec>, offset: nat) {
    exists k :: 0 <= k < |s| && s[k].pageOffset == offset
  }

  /** The records s of the page of the first insertion, after all of them. */
  ghost predicate FirstKept(arrivals: seq<Arrival>, s: seq<MemRec>)
    requires arrivals != []
  {
    var a0, a := arrivals[0], arrivals[|arrivals| - 1];
    && s != [] && (a.Page() == a0.Page() ==> s[|s| - 1] == a.Rec())
    && (HasOffset(s, a0.Rec().pageOffset) <==> !Repeats(arrivals))
    && (forall k :: 0 <= k < |s| && s[k].pageOffset == a0.Rec().pageOffset ==> s[k] == a0.Rec())
  }

  lemma RepeatsStep(init: seq<Arrival>, a: Arrival)
    requires init != []
    ensures Repeats(init + [a]) <==> Repeats(init) || Repeat(init + [a], |init|)
  {
    var all := init + [a];
    assert forall i :: 0 < i < |init| ==> (Repeat(all, i) <==> Repeat(init, i));
  }

  lemma SamePlace(a: Arrival, b: Arrival)
    requires a.Page() == b.Page()
    ensures a.dest < b.dest <==> a.Rec().pageOffset < b.Rec().pageOffset
    ensures a.dest == b.dest <==> a.Rec().pageOffset == b.Rec().pageOffset
  {
  }

  /** An insertion behind the last one keeps what there was. */
  lemma FirstKeptAppend(init: seq<Arrival>, a: Arrival, s: seq<MemRec>)
    requires init != [] && Ordered(init + [a]) && FirstKept(init, s)
    requires a.Page() == init[0].Page() && init[|init| - 1].dest < a.dest && init[|init| - 1].Page() == a.Page()
    ensures FirstKept(init + [a], AppendOrReset(s, a.Rec()))
  {
    var a0, last := init[0], init[|init| - 1];
    RepeatsStep(init, a);
    SamePlace(last, a);
    SamePlace(a0, a);
    assert (init + [a])[0] == a0 && (init + [a])[|init| - 1] == last;
    assert AppendOrReset(s, a.Rec()) == s + [a.Rec()];
    assert a0.dest < a.dest;
    assert HasOffset(s, a0.Rec().pageOffset) <==> HasOffset(s + [a.Rec()], a0.Rec().pageOffset) by {
      assert forall k :: 0 <= k < |s| ==> (s + [a.Rec()])[k] == s[k];
    }
  }

  /** An insertion at the address of the last one starts the page over. */
  lemma FirstKeptRepeat(init: seq<Arrival>, a: Arrival, s: seq<MemRec>)
    requires init != [] && Ordered(init + [a]) && OneRecord(init + [a]) && FirstKept(init, s)
    requires a.Page() == init[0].Page() && init[|init| - 1].dest == a.dest
    ensures FirstKept(init + [a], AppendOrReset(s, a.Rec()))
  {
    var a0, all := init[0], init + [a];
    RepeatsStep(init, a);
    SamePlace(a0, a);
    assert all[0] == a0 && all[|init|] == a && all[|init| - 1] == init[|init| - 1];
    assert AppendOrReset(s, a.Rec()) == [a.Rec()];
    assert [a.Rec()][0] == a.Rec();
    if a.dest == a0.dest {
      forall i | 0 < i < |init|
        ensures !Repeat(init, i)
      {
        assert all[0].dest <= all[i].dest <= all[|init|].dest;
      }
      assert !Repeats(all) && a.Rec() == a0.Rec();
    } else {
      assert Repeat(all, |init|);
    }
  }

  lemma {:induction false} RunKeepsFirst(v: View, arrivals: seq<Arrival>)
    requires WellFormed(v) && arrivals != [] && Ordered(arrivals) && OneRecord(arrivals)
    ensures FirstKept(arrivals, Recs(InsertAll(v, arrivals), arrivals[0].Page()))
  {
    hide *;
    var n := |arrivals| - 1;
    var init, a, page := arrivals[..n], arrivals[n], arrivals[0].Page();
    assert arrivals == init + [a];
    InsertAllOneMore(v, init, a);
    InsertOnPage(InsertAll(v, init), a, page);
    if n == 0 {
      InsertNothing(v);
      OneInsertion(v, a);
      assert init == [] && arrivals == [a];
    } else {
      OrderedInit(init, a);
      RunKeepsFirst(v, init);
      var s := Recs(InsertAll(v, init), page);
      if a.Page() != page {
        ElsewhereKept(init, a, s);
      } else {
        BetweenOnPage(init, a);
        if init[n - 1].dest < a.dest {
          FirstKeptAppend(init, a, s);
        } else {
          FirstKeptRepeat(init, a, s);
        }
      }
    }
  }

  lemma InsertNothing(v: View)
    ensures InsertAll(v, []) == v
  {
  }

  lemma OrderedInit(init: seq<Arrival>, a: Arrival)
    requires Ordered(init + [a]) && OneRecord(init + [a]) && init != []
    ensures Ordered(init) && OneRecord(init)
  {
    assert forall i :: 0 <= i < |init| ==> init[i] == (init + [a])[i];
  }

  lemma OneInsertion(v: View, a: Arrival)
    requires WellFormed(v)
    ensures FirstKept([a], AppendOrReset(Recs(v, a.Page()), a.Rec()))
  {
    var s := AppendOrReset(Recs(v, a.Page()), a.Rec());
    InsertKeepsWellFormed(v, a);
    assert s == Insert(v, a)[a.Page()] && Ascending(s);
    assert s[|s| - 1] == a.Rec();
  }

  lemma ElsewhereKept(init: seq<Arrival>, a: Arrival, s: seq<MemRec>)
    requires init != [] && a.Page() != init[0].Page() && FirstKept(init, s)
    ensures FirstKept(init + [a], s)
  {
    RepeatsStep(init, a);
    assert (init + [a])[0] == init[0];
  }

  /** Addresses between two of one page are on that page. */
  lemma BetweenOnPage(init: seq<Arrival>, a: Arrival)
    requires init != [] && Ordered(init + [a]) && a.Page() == init[0].Page()
    ensures init[|init| - 1].Page() == a.Page() && init[|init| - 1].dest <= a.dest
  {
    var all := init + [a];
    assert all[0] == init[0] && all[|init| - 1] == init[|init| - 1] && all[|init|] == a;
    assert |init| > 1 ==> all[0].dest <= all[|init| - 1].dest;
    assert all[|init| - 1].dest <= all[|init|].dest;
  }

  // ---- A write that starts where no record is ----------------------------------------------------

  lemma NothingAtBuf(e: Env, v: View, buf: nat, n: nat)
    requires WellFormed(v) && !HasOffset(Recs(v, PageNum(buf)), PageOffset(buf)) && n > 0
    ensures Total(Fwrite(e, v, buf, n).hits) < n
  {
    var s := Fwrite(e, v, buf, n);
    FwriteSound(e, v, buf, n);
    hide Fwrite, WellFormed, InOrderHits, FileAddress, Same;
    forall h | h in s.hits
      ensures GoodHit(e, v, buf + 1, buf + n, h)
    {
      assert GoodHit(e, v, buf, buf + n, h);
    }
    TotalWithin(e, v, buf + 1, buf + n, s);
  }

  // ---- The run of reads ------------------------------------------------------------------------

  /** The cursor before read i. */
  ghost function Cursor(m: FileMap, r: Reader, qs: seq<Request>, i: nat): nat
    requires i <= |qs|
  {
    ReadAll(m, Some(m), r, qs[..i]).cursor
  }

  /** Each read goes on in the buffer where the one before stopped. */
  ghost predicate OneBuffer(m: FileMap, r: Reader, qs: seq<Request>) {
    forall i :: 0 <= i < |qs| ==> qs[i].buf == qs[0].buf + (Cursor(m, r, qs, i) - r.cursor)
  }

  /** A read that delivered nothing is followed by another one, after the cursor has moved and while
      the buffer is still on its first page. */
  ghost predicate ReadAfterNothing(m: FileMap, r: Reader, qs: seq<Request>) {
    exists i :: 0 < i < |qs| && AfterNothing(m, r, qs, i)
  }

  ghost predicate AfterNothing(m: FileMap, r: Reader, qs: seq<Request>, i: nat)
    requires 0 < i < |qs|
  {
    Cursor(m, r, qs, i) == Cursor(m, r, qs, i - 1) != r.cursor && PageNum(qs[i].buf) == PageNum(qs[0].buf)
  }

  /** The records of the run. */
  ghost function RunRecords(m: FileMap, r: Reader, qs: seq<Request>): (s: seq<Arrival>)
    ensures AtCursor(m, r, qs, s)
  {
    seq(|qs|, i requires 0 <= i < |qs| => Arrival(qs[i].buf, ReadAll(m, Some(m), r, qs[..i]).cursor, m.fileName, m.fd))
  }

  /** One read of the run. */
  lemma CursorStep(m: FileMap, r: Reader, qs: seq<Request>, j: nat)
    requires 0 < j <= |qs|
    ensures ReadAll(m, Some(m), r, qs[..j]) == Read(m, Some(m), ReadAll(m, Some(m), r, qs[..j - 1]), qs[j - 1])
  {
    hide Read;
    assert qs[..j][..j - 1] == qs[..j - 1] && qs[..j][j - 1] == qs[j - 1];
  }

  lemma CursorIs(m: FileMap, r: Reader, qs: seq<Request>, j: nat)
    requires j <= |qs|
    ensures Cursor(m, r, qs, j) == ReadAll(m, Some(m), r, qs[..j]).cursor
  {
  }

  lemma {:induction false} CursorMoves(m: FileMap, r: Reader, qs: seq<Request>, i: nat, j: nat)
    requires InMapping(m, r.cursor) && (forall q :: q in qs ==> Clear(m, q)) && i <= j <= |qs|
    ensures r.cursor <= Cursor(m, r, qs, i) <= Cursor(m, r, qs, j) && InMapping(m, Cursor(m, r, qs, j))
    decreases j - i
  {
    hide *;
    CursorIs(m, r, qs, j);
    if i < j {
      CursorMoves(m, r, qs, i, j - 1);
      CursorIs(m, r, qs, j - 1);
      CursorStep(m, r, qs, j);
      assert qs[j - 1] in qs;
      ReadOne(m, Some(m), ReadAll(m, Some(m), r, qs[..j - 1]), qs[j - 1]);
    } else {
      ReadsDeliverPrefix(m, Some(m), r, qs[..i]);
    }
  }

  lemma RecordsOrdered(m: FileMap, r: Reader, qs: seq<Request>)
    requires InMapping(m, r.cursor) && (forall q :: q in qs ==> Clear(m, q)) && qs != [] && OneBuffer(m, r, qs)
    ensures RunRecords(m, r, qs) != [] && Ordered(RunRecords(m, r, qs)) && OneRecord(RunRecords(m, r, qs))
    ensures Repeats(RunRecords(m, r, qs)) <==> ReadAfterNothing(m, r, qs)
    ensures |RunRecords(m, r, qs)| == |qs| && RunRecords(m, r, qs)[0] == Arrival(qs[0].buf, r.cursor, m.fileName, m.fd)
  {
    var all := RunRecords(m, r, qs);
    hide InMapping, Clear, ReadAll, RunRecords;
    assert forall i :: 0 <= i < |qs| ==> all[i] == Arrival(qs[i].buf, Cursor(m, r, qs, i), m.fileName, m.fd);
    CursorAtStart(m, r, qs);
    forall i, j | 0 <= i <= j < |qs|
      ensures r.cursor <= Cursor(m, r, qs, i) <= Cursor(m, r, qs, j)
    {
      CursorMoves(m, r, qs, i, j);
    }
    hide Cursor;
    forall i | 0 < i < |qs|
      ensures Repeat(all, i) <==> AfterNothing(m, r, qs, i)
    {
    }
  }

  lemma CursorAtStart(m: FileMap, r: Reader, qs: seq<Request>)
    ensures Cursor(m, r, qs, 0) == r.cursor
  {
    assert qs[..0] == [];
  }

  /** The byte at y is the one that was s further on. */
  predicate Passed(mem: Mem, before: Mem, y: int, s: int) {
    mem(y) == before(y + s)
  }

  /** The d bytes from buf on are those of the mapping from the first cursor on. */
  ghost predicate Filled(mem: Mem, before: Mem, buf: int, d: int, s: int) {
    forall y :: buf <= y < buf + d ==> Passed(mem, before, y, s)
  }

  /** One more read keeps what is in the buffer and adds to it. */
  lemma FilledStep(m: FileMap, r: Reader, mid: Reader, buf: nat, q: Request)
    requires InMapping(m, r.cursor) && InMapping(m, mid.cursor) && Clear(m, q) && r.cursor <= mid.cursor
    requires var s := m.start + (r.cursor - m.offset) - buf;
      q.buf == buf + (mid.cursor - r.cursor) && Filled(mid.mem, r.mem, buf, mid.cursor - r.cursor, s)
    requires forall x :: m.start <= x < m.tail ==> mid.mem(x) == r.mem(x)
    ensures var s := m.start + (r.cursor - m.offset) - buf;
      var r' := Read(m, Some(m), mid, q);
      r'.cursor >= mid.cursor && Filled(r'.mem, r.mem, buf, r'.cursor - r.cursor, s)
  {
    hide *;
    var n, s := CopyLen(m, mid.cursor, q.nbytes), m.start + (r.cursor - m.offset) - buf;
    InMappingIs(m, r.cursor);
    InMappingIs(m, mid.cursor);
    InMappingIs(m, mid.cursor + n);
    ReadOne(m, Some(m), mid, q);
    ReadMem(m, mid, q);
    assert m.start + (mid.cursor - m.offset) == q.buf + s;
    UntouchedIsFilled(mid.mem, r.mem, q.buf + s, n);
    FilledMore(mid.mem, r.mem, buf, mid.cursor - r.cursor, n, s);
    assert Read(m, Some(m), mid, q).cursor - r.cursor == mid.cursor - r.cursor + n;
  }

  lemma UntouchedIsFilled(mem: Mem, before: Mem, at: int, n: nat)
    requires forall x :: at <= x < at + n ==> mem(x) == before(x)
    ensures Filled(mem, before, at, n, 0)
  {
  }

  lemma ReadMem(m: FileMap, mid: Reader, q: Request)
    requires InMapping(m, mid.cursor)
    ensures Read(m, Some(m), mid, q).mem
      == Copied(mid.mem, q.buf, m.start + (mid.cursor - m.offset), CopyLen(m, mid.cursor, q.nbytes))
  {
    hide Copied, Insert, CopyLen;
  }

  lemma FilledMore(mid: Mem, before: Mem, buf: int, d: nat, n: nat, s: int)
    requires Filled(mid, before, buf, d, s) && Filled(mid, before, buf + d + s, n, 0)
    ensures Filled(Copied(mid, buf + d, buf + d + s, n), before, buf, d + n, s)
  {
    hide Copied, Passed;
    var mem := Copied(mid, buf + d, buf + d + s, n);
    forall y | buf <= y < buf + d + n
      ensures Passed(mem, before, y, s)
    {
      PassedOn(mid, before, buf, d, n, s, y);
    }
  }

  /** One byte of the buffer. */
  lemma PassedOn(mid: Mem, before: Mem, buf: int, d: nat, n: nat, s: int, y: int)
    requires buf <= y < buf + d + n
    requires if y < buf + d then Passed(mid, before, y, s) else Passed(mid, before, y + s, 0)
    ensures Passed(Copied(mid, buf + d, buf + d + s, n), before, y, s)
  {
    hide Copied;
    CopiedAt(mid, buf + d, buf + d + s, n, y);
    assert buf + d + s + (y - (buf + d)) == y + s == y + s + 0;
  }

  lemma {:induction false} BufferFilled(m: FileMap, r: Reader, qs: seq<Request>, k: nat)
    requires InMapping(m, r.cursor) && (forall q :: q in qs ==> Clear(m, q)) && qs != []
    requires OneBuffer(m, r, qs) && k <= |qs|
    ensures Filled(ReadAll(m, Some(m), r, qs[..k]).mem, r.mem, qs[0].buf, Cursor(m, r, qs, k) - r.cursor,
                   m.start + (r.cursor - m.offset) - qs[0].buf)
  {
    hide *;
    CursorIs(m, r, qs, k);
    if k == 0 {
      CursorAtStart(m, r, qs);
      NothingFilled(ReadAll(m, Some(m), r, qs[..k]).mem, r.mem, qs[0].buf, m.start + (r.cursor - m.offset) - qs[0].buf);
    } else {
      BufferFilled(m, r, qs, k - 1);
      CursorIs(m, r, qs, k - 1);
      CursorStep(m, r, qs, k);
      assert qs[k - 1] in qs;
      OneBufferAt(m, r, qs, k - 1);
      ReadsDeliverPrefix(m, Some(m), r, qs[..k - 1]);
      FilledStep(m, r, ReadAll(m, Some(m), r, qs[..k - 1]), qs[0].buf, qs[k - 1]);
    }
  }

  lemma NothingFilled(mem: Mem, before: Mem, buf: int, s: int)
    ensures Filled(mem, before, buf, 0, s)
  {
  }

  lemma OneBufferAt(m: FileMap, r: Reader, qs: seq<Request>, i: nat)
    requires i < |qs| && OneBuffer(m, r, qs)
    ensures qs[i].buf == qs[0].buf + (Cursor(m, r, qs, i) - r.cursor)
  {
  }

  /** After the run, the buffer equals the mapped content. */
  lemma BufferSame(m: FileMap, r: Reader, qs: seq<Request>)
    requires InMapping(m, r.cursor) && (forall q :: q in qs ==> Clear(m, q)) && qs != [] && OneBuffer(m, r, qs)
    ensures var r' := ReadAll(m, Some(m), r, qs);
      r'.cursor >= r.cursor && InMapping(m, r'.cursor)
      && Same(r'.mem, qs[0].buf, m.start + (r.cursor - m.offset), r'.cursor - r.cursor)
  {
    hide *;
    assert qs[..|qs|] == qs;
    CursorIs(m, r, qs, |qs|);
    BufferFilled(m, r, qs, |qs|);
    ReadsDeliverPrefix(m, Some(m), r, qs);
    InMappingIs(m, r.cursor);
    var r', src, buf := ReadAll(m, Some(m), r, qs), m.start + (r.cursor - m.offset), qs[0].buf;
    InMappingIs(m, r'.cursor);
    FilledIsSame(r'.mem, r.mem, buf, src, r'.cursor - r.cursor);
  }

  lemma FilledIsSame(mem: Mem, before: Mem, buf: int, src: int, n: int)
    requires Filled(mem, before, buf, n, src - buf) && forall x :: src <= x < src + n ==> mem(x) == before(x)
    ensures Same(mem, buf, src, n)
  {
    var d := src - buf;
    forall y | buf <= y < buf + n
      ensures EqualAt(mem, y, d)
    {
      assert Passed(mem, before, y, d);
      assert mem(y + d) == before(y + d);
    }
  }

  // ---- The theorem -----------------------------------------------------------------------------

  /** A run of reads from mapping m into one buffer, then one write of all they delivered: all bytes count,
      if and only if no read follows an empty one after the cursor has moved, while the buffer is still
      on its first page, and there is no false alarm that a record at the last byte does not make up
      for. There is none with the byte loop, nor with the AVX2 comparer when the reads delivered neither
      2 nor 3 bytes. */
  lemma ReadRunThenWrite(e: Env, m: FileMap, r: Reader, qs: seq<Request>)
    requires WellFormed(r.view) && NamesAscend(InOrder(e.names)) && m in InOrder(e.names) && InSpace(m)
    requires InMapping(m, r.cursor) && (forall q :: q in qs ==> Clear(m, q)) && qs != [] && OneBuffer(m, r, qs)
    ensures var r' := ReadAll(m, Some(m), r, qs);
      r'.cursor >= r.cursor
      && var n, e', buf := r'.cursor - r.cursor, e.(mem := r'.mem), qs[0].buf;
         var alarm := Alarm(e', buf, m.start + (r.cursor - m.offset), n);
         && (e.comparer.ByteLoop? || (n != 2 && n != 3) ==> !alarm)
         && (Total(Fwrite(e', r'.view, buf, n).hits) == n <==>
               || n == 0
               || (!ReadAfterNothing(m, r, qs) && (alarm ==> LastByteCounts(e', r'.view, buf, buf + n - 1))))
  {
    hide *;
    BufferSame(m, r, qs);
    InMappingIs(m, r.cursor);
    var r', buf, src := ReadAll(m, Some(m), r, qs), qs[0].buf, m.start + (r.cursor - m.offset);
    var n, all, e' := r'.cursor - r.cursor, RunRecords(m, r, qs), e.(mem := r'.mem);
    NoWrapNear(m, r.cursor);
    RecordsOrdered(m, r, qs);
    ReadsRecordCursor(m, r, qs, all);
    RunKeepsFirst(r.view, all);
    InsertAllKeepsWellFormed(r.view, all);
    FirstIs(all, Recs(r'.view, all[0].Page()));
    PlaceOf(all[0], buf);
    AlarmIsShort(e', buf, src, n);
    NoAlarm(e', buf, src, n);
    if n == 0 {
      FwriteSound(e', r'.view, buf, n);
    } else if ReadAfterNothing(m, r, qs) {
      NothingAtBuf(e', r'.view, buf, n);
    } else {
      var k := OffsetAt(Recs(r'.view, PageNum(buf)), PageOffset(buf));
      FirstLeadsBack(e', m, r.cursor, buf);
      RecordAtBufCounts(e', r'.view, buf, n, k, src);
    }
  }

  lemma NoWrapNear(m: FileMap, cursor: nat)
    requires InSpace(m) && InMapping(m, cursor)
    ensures m.offset + (m.tail - m.start) < TWO64 && m.start + (cursor - m.offset) < TWO64
  {
  }

  lemma FirstIs(arrivals: seq<Arrival>, s: seq<MemRec>)
    requires arrivals != [] && FirstKept(arrivals, s)
    ensures HasOffset(s, arrivals[0].Rec().pageOffset) <==> !Repeats(arrivals)
    ensures forall k :: 0 <= k < |s| && s[k].pageOffset == arrivals[0].Rec().pageOffset ==> s[k] == arrivals[0].Rec()
  {
  }

  lemma PlaceOf(a: Arrival, buf: nat)
    requires a.dest == buf
    ensures a.Page() == PageNum(buf) && a.Rec().pageOffset == PageOffset(buf)
  {
  }

  lemma OffsetAt(s: seq<MemRec>, offset: nat) returns (k: nat)
    requires HasOffset(s, offset)
    ensures k < |s| && s[k].pageOffset == offset
  {
    k :| 0 <= k < |s| && s[k].pageOffset == offset;
  }

  /** The first record of the run leads back to where the first read copied from. */
  lemma FirstLeadsBack(e: Env, m: FileMap, cursor: nat, buf: nat)
    requires NamesAscend(InOrder(e.names)) && m in InOrder(e.names) && InSpace(m) && InMapping(m, cursor)
    ensures FileAddress(e, Arrival(buf, cursor, m.fileName, m.fd).Rec()) == Some(m.start + (cursor - m.offset))
  {
    hide InOrder, FindName, NamesAscend;
    FindNameExact(e.names, m);
  }
}
