/** Whether the bytes that a write counts are bytes of mapped files. A comparison goes on to the end of
    the buffer and never looks at the end of the mapping. */
module FileHits {
  import opened Addr
  import opened Bst
  import opened EndToEnd
  import opened FileMaps
  import opened MatchSpec
  import opened Memory
  import opened TraceSpec

  /** The hit comes from record r, through mapping m. */
  ghost predicate Through(e: Env, v: View, h: Hit, r: MemRec, m: FileMap) {
    && r in Recs(v, PageNum(h.at)) && r.pageOffset == PageOffset(h.at)
    && FindName(e.names, r.fileName) == Some(m) && m.offset <= r.fileOffset
    && h.from == U64(m.start + r.fileOffset - m.offset)
  }

  /** The len bytes from `from` on are bytes of the mapping. */
  predicate InFile(m: FileMap, from: nat, len: nat) {
    len == 0 || (m.start <= from && from + len <= m.tail)
  }

  /** What is left of the mapping from an address on. */
  function Left(m: FileMap, from: nat): nat {
    if from <= m.tail then m.tail - from else 0
  }

  lemma AtMost(e: Env, at: nat, from: nat, n: nat, k: nat)
    ensures CommonPrefix(e.mem, at, from, n) <= k <==> n <= k || !Same(e.mem, at, from, k + 1)
  {
    var c := CommonPrefix(e.mem, at, from, n);
    assert c <= k && k < n ==> !EqualAt(e.mem, at + c, from - at);
  }

  /** A comparison of the rest of the buffer, n bytes, with the memory from `from` on stays in the
      mapping if and only if n is no more than what is left of it, or the buffer differs from the
      mapping before its end or from the byte right behind it, or that byte is the last of the buffer
      and a false alarm leaves it out. */
  lemma StaysInFile(e: Env, m: FileMap, at: nat, from: nat, n: nat)
    requires m.start <= from
    ensures InFile(m, from, PrefixLen(e, at, from, n)) <==>
      || n <= Left(m, from)
      || !Same(e.mem, at, from, Left(m, from) + 1)
      || (Alarm(e, at, from, n) && n == Left(m, from) + 1)
  {
    AtMost(e, at, from, n, Left(m, from));
    PrefixLenIs(e, at, from, n);
    hide Same, CommonPrefix, PrefixLen, Alarm;
    AlarmIsShort(e, at, from, n);
  }

  lemma PrefixLenIs(e: Env, at: nat, from: nat, n: nat)
    ensures PrefixLen(e, at, from, n) == if Alarm(e, at, from, n) then n - 1 else CommonPrefix(e.mem, at, from, n)
    ensures Alarm(e, at, from, n) ==> CommonPrefix(e.mem, at, from, n) == n
  {
  }

  /** Every hit of a write comes from a record through a mapping; as long as that does not wrap around,
      it counts bytes of the mapping only, if and only if its comparison stays there. */
  lemma HitsInFiles(e: Env, v: View, buf: nat, length: nat, h: Hit)
    requires WellFormed(v) && h in Fwrite(e, v, buf, length).hits
    ensures h.at <= buf + length && exists r, m :: Through(e, v, h, r, m)
    ensures forall r, m :: Through(e, v, h, r, m) && m.start <= h.from ==>
      var n := buf + length - h.at;
      InFile(m, h.from, h.len) <==>
        || n <= Left(m, h.from)
        || !Same(e.mem, h.at, h.from, Left(m, h.from) + 1)
        || (Alarm(e, h.at, h.from, n) && n == Left(m, h.from) + 1)
  {
    FwriteSound(e, v, buf, length);
    GoodHitIs(e, v, buf, buf + length, h);
    hide *;
    forall r, m | Through(e, v, h, r, m) && m.start <= h.from
      ensures var n := buf + length - h.at;
        InFile(m, h.from, h.len) <==>
          || n <= Left(m, h.from)
          || !Same(e.mem, h.at, h.from, Left(m, h.from) + 1)
          || (Alarm(e, h.at, h.from, n) && n == Left(m, h.from) + 1)
    {
      StaysInFile(e, m, h.at, h.from, buf + length - h.at);
    }
  }

  lemma GoodHitIs(e: Env, v: View, buf: nat, tail: nat, h: Hit)
    requires GoodHit(e, v, buf, tail, h)
    ensures buf <= h.at <= tail && h.at + h.len <= tail && h.len == PrefixLen(e, h.at, h.from, tail - h.at)
    ensures exists r, m :: Through(e, v, h, r, m)
  {
    var r :| r in Recs(v, PageNum(h.at)) && r.pageOffset == PageOffset(h.at) && FileAddress(e, r) == Some(h.from);
    hide FindName, U64, PrefixLen;
    assert Through(e, v, h, r, FindName(e.names, r.fileName).value);
  }

  // ---- What a caller can see beforehand --------------------------------------------------------

  /** The rest of the buffer is not longer than the mapping from the record's file offset on. */
  predicate Covers(m: FileMap, r: MemRec, rest: nat) {
    m.tail < TWO64 && r.fileOffset - m.offset + rest <= m.tail - m.start
  }

  /** That is so for every usable record in the buffer. */
  ghost predicate AllCovered(e: Env, v: View, buf: nat, tail: nat) {
    forall page, r :: r in Recs(v, page) ==> Covered(e, buf, tail, page, r)
  }

  predicate Covered(e: Env, buf: nat, tail: nat, page: nat, r: MemRec) {
    var at, m := GetAddr(page, r.pageOffset), FindName(e.names, r.fileName);
    buf <= at <= tail && m.Some? && m.value.offset <= r.fileOffset ==> Covers(m.value, r, tail - at)
  }

  /** The bytes a hit counts are those of the file that its record names, from the record's file offset
      on. */
  ghost predicate CountsFile(e: Env, v: View, h: Hit) {
    exists r, m :: Through(e, v, h, r, m) && h.from == m.start + (r.fileOffset - m.offset) && h.from + h.len <= m.tail
  }

  /** When all records in the buffer are covered, every counted byte is a byte of a mapped file, at the
      file offset that its record says. */
  lemma CoveredCountsFiles(e: Env, v: View, buf: nat, length: nat)
    requires WellFormed(v) && AllCovered(e, v, buf, buf + length)
    ensures forall h :: h in Fwrite(e, v, buf, length).hits ==> CountsFile(e, v, h)
  {
    hide Fwrite;
    forall h | h in Fwrite(e, v, buf, length).hits
      ensures CountsFile(e, v, h)
    {
      FwriteSound(e, v, buf, length);
      CoveredHit(e, v, buf, buf + length, h);
    }
  }

  lemma CoveredHit(e: Env, v: View, buf: nat, tail: nat, h: Hit)
    requires AllCovered(e, v, buf, tail) && GoodHit(e, v, buf, tail, h)
    ensures CountsFile(e, v, h)
  {
    GoodHitIs(e, v, buf, tail, h);
    hide GoodHit, FindName;
    var r, m :| Through(e, v, h, r, m);
    assert Covered(e, buf, tail, PageNum(h.at), r);
    assert GetAddr(PageNum(h.at), r.pageOffset) == h.at;
    assert h.from == m.start + (r.fileOffset - m.offset);
  }

  // ---- A copy and the write of exactly the copy -------------------------------------------------

  /** A copy of n bytes out of the mapping that the record names, written as it is: whatever is counted
      is counted for this record, and comes from this mapping. */
  lemma CopyCountsItsFile(e: Env, v: View, m: FileMap, dest: nat, src: nat, n: nat)
    requires WellFormed(v) && FindName(e.names, m.fileName) == Some(m) && InSpace(m)
    requires m.start <= src && src + n <= m.tail
    requires Same(e.mem, dest, src, n) && !Alarm(e, dest, src, n)
    ensures forall h :: h in Fwrite(e, Insert(v, CopyRecord(m, dest, src)), dest, n).hits && h.len > 0 ==>
      h == Hit(dest, n, src) && InFile(m, h.from, h.len)
  {
    hide *;
    var a := CopyRecord(m, dest, src);
    CopyGoesTo(m, dest, src);
    InSpaceIs(m);
    SelfShift(m);
    Unwrapped(m, src);
    RecordPointsBack(e, m, m, dest, src);
    InsertedCopy(e, v, a, n);
    CopyScanned(e, a, src, n);
    PagesAfterTail(e, Insert(v, a), dest, dest + n, a.Page() + 1, Scan(dest + n, [Hit(dest, n, src)], 0));
    IsInFile(m, src, n);
  }

  lemma InSpaceIs(m: FileMap)
    requires InSpace(m)
    ensures m.start < m.tail < TWO64
  {
  }

  lemma IsInFile(m: FileMap, from: nat, len: nat)
    requires m.start <= from && from + len <= m.tail
    ensures InFile(m, from, len)
  {
  }
}
