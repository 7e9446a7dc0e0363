/** What ts_read does with the memory, the file cursor and the trace. */
module ReadSpec {
  import opened Addr
  import opened Bst
  import opened FileMaps
  import opened MatchSpec
  import opened Memory
  import opened TraceSpec

  datatype Reader = Reader(mem: Mem, cursor: nat, view: View)

  datatype Request = Request(buf: nat, nbytes: nat)

  /** Where the cursor is in the mapping m. */
  function CopyBegin(m: FileMap, cursor: nat): nat {
    U64(m.start + cursor - m.offset)
  }

  /** The number of bytes a read copies: what is left of the mapping, in unsigned arithmetic, or
      less when less is asked for. */
  function CopyLen(m: FileMap, cursor: nat, nbytes: nat): nat {
    var left := U64(m.tail - CopyBegin(m, cursor));
    if left < nbytes then left else nbytes
  }

  /** One ts_read from mapping m; `open` is what the open-file slot of the descriptor holds. */
  function Read(m: FileMap, open: Option<FileMap>, r: Reader, q: Request): Reader {
    var src, n := CopyBegin(m, r.cursor), CopyLen(m, r.cursor, q.nbytes);
    Reader(Copied(r.mem, q.buf, src, n), r.cursor + n,
           match open case None => r.view case Some(o) => Insert(r.view, CopyRecord(o, q.buf, src)))
  }

  function ReadAll(m: FileMap, open: Option<FileMap>, r: Reader, qs: seq<Request>): Reader {
    if qs == [] then r
    else Read(m, open, ReadAll(m, open, r, qs[..|qs| - 1]), qs[|qs| - 1])
  }

  function Bytes(mem: Mem, at: int, n: nat): seq<byte> {
    seq(n, i => mem(at + i))
  }

  /** What each read has put into its buffer, one after the other. */
  function Delivered(m: FileMap, open: Option<FileMap>, r: Reader, qs: seq<Request>): seq<byte> {
    if qs == [] then []
    else
      var k := |qs| - 1;
      var before := ReadAll(m, open, r, qs[..k]);
      Delivered(m, open, r, qs[..k])
        + Bytes(ReadAll(m, open, r, qs).mem, qs[k].buf, CopyLen(m, before.cursor, qs[k].nbytes))
  }

  /** The cursor is inside the mapping, and the mapping inside the address space. */
  predicate InMapping(m: FileMap, cursor: nat) {
    m.start <= m.tail < TWO64 && m.offset <= cursor <= m.offset + (m.tail - m.start)
  }

  /** No read overwrites the mapping. */
  predicate Clear(m: FileMap, q: Request) {
    q.buf + q.nbytes <= m.start || m.tail <= q.buf
  }

  lemma BytesJoin(mem: Mem, at: int, n: nat, k: nat)
    ensures Bytes(mem, at, n) + Bytes(mem, at + n, k) == Bytes(mem, at, n + k)
  {
  }

  lemma BytesSame(mem: Mem, mem': Mem, at: int, n: nat)
    requires forall x :: at <= x < at + n ==> mem(x) == mem'(x)
    ensures Bytes(mem, at, n) == Bytes(mem', at, n)
  {
  }

  lemma ReadOne(m: FileMap, open: Option<FileMap>, r: Reader, q: Request)
    requires InMapping(m, r.cursor) && Clear(m, q)
    ensures var r', n := Read(m, open, r, q), CopyLen(m, r.cursor, q.nbytes);
      && InMapping(m, r'.cursor) && r'.cursor == r.cursor + n
      && (n < q.nbytes ==> r'.cursor == m.offset + (m.tail - m.start))
      && Bytes(r'.mem, q.buf, n) == Bytes(r.mem, m.start + (r.cursor - m.offset), n)
      && forall x :: m.start <= x < m.tail ==> r'.mem(x) == r.mem(x)
  {
    assert CopyBegin(m, r.cursor) == m.start + (r.cursor - m.offset);
  }

  /** Where a read copies from, when no address wraps around: with the cursor in the mapping, what is left of
      it or less; with the cursor behind its end, all the bytes asked for, from behind the mapping; with the
      cursor in front of it, from in front of the mapping. So it stays inside exactly in the first case. */
  lemma ReadStaysInside(m: FileMap, cursor: nat, nbytes: nat)
    requires m.start <= m.tail < TWO64 && nbytes > 0 && nbytes + cursor < TWO64
    requires 0 <= m.start + cursor - m.offset < TWO64
    ensures var begin, n, end := CopyBegin(m, cursor), CopyLen(m, cursor, nbytes), m.offset + (m.tail - m.start);
      && begin == m.start + cursor - m.offset
      && (cursor <= end ==> n == if end - cursor < nbytes then end - cursor else nbytes)
      && (cursor > end ==> n == nbytes)
      && (m.start <= begin && begin + n <= m.tail <==> InMapping(m, cursor))
  {
    var end := m.offset + (m.tail - m.start);
    var left := m.tail - (m.start + cursor - m.offset);
    assert left == end - cursor;
    if cursor > end { WrapsOnce(left); }
  }

  lemma WrapsOnce(x: int)
    requires -TWO64 <= x < 0
    ensures U64(x) == x + TWO64
  {
  }

  /** Any run of reads delivers a prefix of the mapped content from the cursor on, without gap or
      repetition, and the cursor stays inside the mapping. */
  lemma {:induction false} ReadsDeliverPrefix(m: FileMap, open: Option<FileMap>, r: Reader, qs: seq<Request>)
    requires InMapping(m, r.cursor) && forall q :: q in qs ==> Clear(m, q)
    ensures var r' := ReadAll(m, open, r, qs);
      && r.cursor <= r'.cursor && InMapping(m, r'.cursor)
      && Delivered(m, open, r, qs) == Bytes(r.mem, m.start + (r.cursor - m.offset), r'.cursor - r.cursor)
      && (forall x :: m.start <= x < m.tail ==> r'.mem(x) == r.mem(x))
  {
    hide *;
    if qs == [] {
      NoRun(m, open, r, m.start + (r.cursor - m.offset));
    } else {
      var k := |qs| - 1;
      ReadsDeliverPrefix(m, open, r, qs[..k]);
      RunStep(m, open, r, qs);
      InMappingIs(m, r.cursor);
      var mid := ReadAll(m, open, r, qs[..k]);
      InMappingIs(m, mid.cursor);
      assert qs[k] in qs;
      ReadOne(m, open, mid, qs[k]);
      var n, d := CopyLen(m, mid.cursor, qs[k].nbytes), mid.cursor - r.cursor;
      InMappingIs(m, mid.cursor + n);
      var at := m.start + (r.cursor - m.offset);
      assert at + d == m.start + (mid.cursor - m.offset);
      BytesSame(mid.mem, r.mem, at + d, n);
      BytesJoin(r.mem, at, d, n);
      assert ReadAll(m, open, r, qs).cursor - r.cursor == d + n;
    }
  }

  lemma NoRun(m: FileMap, open: Option<FileMap>, r: Reader, at: int)
    ensures ReadAll(m, open, r, []) == r && Delivered(m, open, r, []) == Bytes(r.mem, at, 0)
  {
  }

  lemma InMappingIs(m: FileMap, cursor: nat)
    ensures InMapping(m, cursor) <==> m.start <= m.tail < TWO64 && m.offset <= cursor <= m.offset + (m.tail - m.start)
  {
  }

  lemma RunStep(m: FileMap, open: Option<FileMap>, r: Reader, qs: seq<Request>)
    requires qs != []
    ensures var k := |qs| - 1;
      var mid := ReadAll(m, open, r, qs[..k]);
      && ReadAll(m, open, r, qs) == Read(m, open, mid, qs[k])
      && Delivered(m, open, r, qs) == Delivered(m, open, r, qs[..k])
           + Bytes(ReadAll(m, open, r, qs).mem, qs[k].buf, CopyLen(m, mid.cursor, qs[k].nbytes))
  {
  }

  /** The insertions of a run when the open-file slot holds the mapping: each record's file offset
      is the cursor before that read. */
  ghost predicate AtCursor(m: FileMap, r: Reader, qs: seq<Request>, arrivals: seq<Arrival>) {
    |arrivals| == |qs|
    && forall i :: 0 <= i < |qs| ==>
         arrivals[i] == Arrival(qs[i].buf, ReadAll(m, Some(m), r, qs[..i]).cursor, m.fileName, m.fd)
  }

  lemma {:induction false} ReadsRecordCursor(m: FileMap, r: Reader, qs: seq<Request>, arrivals: seq<Arrival>)
    requires InMapping(m, r.cursor) && m.offset + (m.tail - m.start) < TWO64
    requires forall q :: q in qs ==> Clear(m, q)
    requires AtCursor(m, r, qs, arrivals)
    ensures ReadAll(m, Some(m), r, qs).view == InsertAll(r.view, arrivals)
  {
    hide *;
    if qs == [] {
      NoInsertions(m, r, arrivals);
    } else {
      var k := |qs| - 1;
      AtCursorStep(m, r, qs, arrivals);
      ReadsRecordCursor(m, r, qs[..k], arrivals[..k]);
      ReadsDeliverPrefix(m, Some(m), r, qs[..k]);
      RunStep(m, Some(m), r, qs);
      RecordAtCursor(m, ReadAll(m, Some(m), r, qs[..k]), qs[k]);
      InsertAllOneMore(r.view, arrivals[..k], arrivals[k]);
      assert arrivals[..k] + [arrivals[k]] == arrivals;
    }
  }

  lemma NoInsertions(m: FileMap, r: Reader, arrivals: seq<Arrival>)
    requires AtCursor(m, r, [], arrivals)
    ensures ReadAll(m, Some(m), r, []).view == InsertAll(r.view, arrivals)
  {
  }

  lemma AtCursorStep(m: FileMap, r: Reader, qs: seq<Request>, arrivals: seq<Arrival>)
    requires qs != [] && AtCursor(m, r, qs, arrivals)
    ensures var k := |qs| - 1;
      && |arrivals| == |qs| && AtCursor(m, r, qs[..k], arrivals[..k])
      && arrivals[k] == Arrival(qs[k].buf, ReadAll(m, Some(m), r, qs[..k]).cursor, m.fileName, m.fd)
  {
    hide ReadAll;
    var k := |qs| - 1;
    assert forall i :: 0 <= i < k ==> qs[..k][..i] == qs[..i];
  }

  /** One read records the cursor it started from. */
  lemma RecordAtCursor(m: FileMap, r: Reader, q: Request)
    requires InMapping(m, r.cursor) && m.offset + (m.tail - m.start) < TWO64
    ensures Read(m, Some(m), r, q).view == Insert(r.view, Arrival(q.buf, r.cursor, m.fileName, m.fd))
  {
  }
}
