/** Copy in, move, write out: ts_memcpy, then ts_memcpy_traced of the copy, then ts_fwrite of the
    bytes at their new place. */
module MoveToEnd {
  import opened Addr
  import opened Bst
  import opened EndToEnd
  import opened FileMaps
  import opened MatchSpec
  import opened Memory
  import opened TraceSpec
  import opened TracedSpec

  /** A record leads to a byte equal to the one at `at`. */
  ghost predicate LeadsToEqual(e: Env, r: MemRec, at: nat) {
    FileAddress(e, r).Some? && EqualAt(e.mem, at, FileAddress(e, r).value - at)
  }

  ghost predicate CountsAt(e: Env, at: nat, page: nat, recs: seq<MemRec>, k: nat) {
    exists j :: k <= j < |recs| && GetAddr(page, recs[j].pageOffset) == at && LeadsToEqual(e, recs[j], at)
  }

  /** A record at the last byte makes up for a false alarm: it is on the page of the buffer, or the last
      byte is the first of its page, and it leads to an equal byte. */
  ghost predicate LastByteCounts(e: Env, v: View, buf: nat, at: nat) {
    && (PageNum(at) == PageNum(buf) || PageOffset(at) == 0)
    && CountsAt(e, at, PageNum(at), Recs(v, PageNum(at)), 0)
  }

  /** A record at the start of the buffer whose file bytes are equal accounts for the whole write,
      wherever in its page it is, if and only if there is no false alarm that a record at the last byte
      does not make up for. */
  lemma RecordAtBufCounts(e: Env, v: View, buf: nat, n: nat, k: nat, from: nat)
    requires WellFormed(v) && k < |Recs(v, PageNum(buf))|
    requires Recs(v, PageNum(buf))[k].pageOffset == PageOffset(buf)
    requires FileAddress(e, Recs(v, PageNum(buf))[k]) == Some(from)
    requires Same(e.mem, buf, from, n)
    ensures Total(Fwrite(e, v, buf, n).hits) == n
       <==> (Alarm(e, buf, from, n) ==> LastByteCounts(e, v, buf, buf + n - 1))
  {
    hide *;
    var page, tail, s0 := PageNum(buf), buf + n, Scan(0, [], 0);
    var recs := Recs(v, page);
    AlarmIsShort(e, buf, from, n);
    var len := if Alarm(e, buf, from, n) then n - 1 else n;
    BeforeBuf(e, v, buf, tail, k, s0);
    var s1 := Scan(buf + len, [Hit(buf, len, from)], 0);
    ScanStep(e, buf, tail, page, recs, k, s0);
    CountsAll(e, buf, page, recs[k], from, n);
    var s2 := ScanPage(e, buf, tail, page, recs, k + 1, s1);
    FwriteTraced(e, v, buf, n);
    TotalOfOne(Hit(buf, len, from));
    if Alarm(e, buf, from, n) {
      LastByteAfter(e, v, buf, buf + n - 1, k, s1);
    } else {
      PageAfterTail(e, buf, tail, page, recs, k + 1, s1);
      PagesAfterTail(e, v, buf, tail, page + 1, s2);
    }
  }

  // ---- One byte is left ----------------------------------------------------------------------

  /** A comparison of one byte. */
  lemma OneByte(e: Env, buf: nat, at: nat, page: nat, r: MemRec, s: Scan)
    requires GetAddr(page, r.pageOffset) == at && s.diffPos == at && buf <= at
    ensures var s' := StepRec(e, buf, at + 1, page, r, s);
      Total(s'.hits) == Total(s.hits) + (if LeadsToEqual(e, r, at) then 1 else 0) && at <= s'.diffPos <= at + 1
  {
    hide FileAddress;
    if FileAddress(e, r).Some? {
      var from := FileAddress(e, r).value;
      FirstDiffersIsPrefix(e.mem, at, from, 1, if EqualAt(e.mem, at, from - at) then 1 else 0);
      TotalOfOneMore(s.hits, Hit(at, PrefixLen(e, at, from, 1), from));
    }
  }

  /** The rest of the page of the buffer, when the last byte is on it. */
  lemma {:induction false} PageLastByte(e: Env, buf: nat, at: nat, page: nat, recs: seq<MemRec>, k: nat, s: Scan)
    requires k <= |recs| && Ascending(recs) && s.diffPos == at && buf < at
    ensures var s' := ScanPage(e, buf, at + 1, page, recs, k, s);
      Total(s'.hits) == Total(s.hits) + (if CountsAt(e, at, page, recs, k) then 1 else 0)
      && at <= s'.diffPos <= at + 1
    decreases |recs| - k
  {
    hide StepRec, LeadsToEqual;
    if k < |recs| {
      var x := GetAddr(page, recs[k].pageOffset);
      var s1 := StepRec(e, buf, at + 1, page, recs[k], s);
      assert forall j :: k < j < |recs| ==> recs[k].pageOffset < recs[j].pageOffset;
      if x < at {
        NotApplied(e, buf, at + 1, page, recs[k], s);
        PageLastByte(e, buf, at, page, recs, k + 1, s);
      } else if x == at {
        OneByte(e, buf, at, page, recs[k], s);
        PageBehindLast(e, buf, at, page, recs, k + 1, s1);
      } else {
        PageBehindLast(e, buf, at, page, recs, k, s);
      }
    }
  }

  lemma NotApplied(e: Env, buf: nat, tail: nat, page: nat, r: MemRec, s: Scan)
    requires GetAddr(page, r.pageOffset) < s.diffPos
    ensures StepRec(e, buf, tail, page, r, s) == s
  {
  }

  /** Pages behind the last byte add nothing. */
  lemma {:induction false} LaterPagesNothing(e: Env, v: View, buf: nat, at: nat, page: nat, s: Scan)
    requires at <= s.diffPos <= at + 1 && GetAddr(page, 0) > at
    ensures Total(ScanPages(e, v, buf, at + 1, page, s).hits) == Total(s.hits)
    decreases PageNum(at + 1) + 1 - page
  {
    if page <= PageNum(at + 1) {
      var s1 := VisitPage(e, v, buf, at + 1, page, s);
      if page in v && GetAddr(page, 0) >= s.diffPos { PageBehindLast(e, buf, at, page, v[page], 0, s); }
      LaterPagesNothing(e, v, buf, at, page + 1, s1);
    }
  }

  lemma PageBefore(v: View, buf: nat, at: nat)
    requires WellFormed(v) && buf < at && PageNum(buf) != PageNum(at)
    ensures forall j :: 0 <= j < |Recs(v, PageNum(buf))| ==>
      GetAddr(PageNum(buf), Recs(v, PageNum(buf))[j].pageOffset) < at
  {
    var recs := Recs(v, PageNum(buf));
    assert InPage(recs);
  }

  lemma NextPageIsLastByte(e: Env, v: View, buf: nat, at: nat)
    requires WellFormed(v) && buf < at && PageNum(buf) != PageNum(at)
    ensures NextPageCounts(e, v, at) <==> LastByteCounts(e, v, buf, at)
  {
    var recs := Recs(v, PageNum(at));
    hide FileAddress;
    assert Ascending(recs);
    if NextPageCounts(e, v, at) {
      assert GetAddr(PageNum(at), recs[0].pageOffset) == at && LeadsToEqual(e, recs[0], at);
    }
  }

  /** The records behind record k, when the scan is one byte before the tail. */
  lemma LastByteAfter(e: Env, v: View, buf: nat, at: nat, k: nat, s: Scan)
    requires WellFormed(v) && s.diffPos == at && buf < at && k < |Recs(v, PageNum(buf))|
    requires Recs(v, PageNum(buf))[k].pageOffset == PageOffset(buf)
    ensures var s2 := ScanPage(e, buf, at + 1, PageNum(buf), Recs(v, PageNum(buf)), k + 1, s);
      Total(ScanPages(e, v, buf, at + 1, PageNum(buf) + 1, s2).hits)
        == Total(s.hits) + if LastByteCounts(e, v, buf, at) then 1 else 0
  {
    hide *;
    var page := PageNum(buf);
    var recs := Recs(v, page);
    var s2 := ScanPage(e, buf, at + 1, page, recs, k + 1, s);
    RecsAscend(v, page);
    if PageNum(at) == page {
      PageLastByte(e, buf, at, page, recs, k + 1, s);
      SamePageCounts(e, v, buf, at, k);
      PageEnds(buf, at);
      LaterPagesNothing(e, v, buf, at, page + 1, s2);
    } else {
      PageBefore(v, buf, at);
      NothingApplies(e, buf, at + 1, page, recs, k + 1, s);
      OneByteLeft(e, v, buf, at, s);
      NextPageIsLastByte(e, v, buf, at);
    }
  }

  lemma PageEnds(buf: nat, at: nat)
    requires PageNum(at) == PageNum(buf)
    ensures GetAddr(PageNum(buf) + 1, 0) > at
  {
  }

  /** On the page of the buffer, a record at the last byte is behind record k. */
  lemma SamePageCounts(e: Env, v: View, buf: nat, at: nat, k: nat)
    requires WellFormed(v) && buf < at && PageNum(at) == PageNum(buf) && k < |Recs(v, PageNum(buf))|
    requires Recs(v, PageNum(buf))[k].pageOffset == PageOffset(buf)
    ensures LastByteCounts(e, v, buf, at) <==> CountsAt(e, at, PageNum(buf), Recs(v, PageNum(buf)), k + 1)
  {
    hide LeadsToEqual;
    var recs := Recs(v, PageNum(buf));
    assert Ascending(recs);
    assert forall j :: 0 <= j <= k ==> recs[j].pageOffset <= recs[k].pageOffset;
    assert GetAddr(PageNum(buf), recs[k].pageOffset) == buf;
  }

  lemma NothingApplies(e: Env, buf: nat, tail: nat, page: nat, recs: seq<MemRec>, k: nat, s: Scan)
    requires k <= |recs| && forall j :: 0 <= j < |recs| ==> GetAddr(page, recs[j].pageOffset) < s.diffPos
    ensures ScanPage(e, buf, tail, page, recs, k, s) == s
  {
    PassOver(e, buf, tail, page, recs, k, |recs|, s);
  }

  /** The records before it are passed over. */
  lemma BeforeBuf(e: Env, v: View, buf: nat, tail: nat, k: nat, s: Scan)
    requires WellFormed(v) && k < |Recs(v, PageNum(buf))| && Recs(v, PageNum(buf))[k].pageOffset == PageOffset(buf)
    ensures ScanPage(e, buf, tail, PageNum(buf), Recs(v, PageNum(buf)), 0, s)
         == ScanPage(e, buf, tail, PageNum(buf), Recs(v, PageNum(buf)), k, s)
  {
    var page, recs := PageNum(buf), Recs(v, PageNum(buf));
    forall j | 0 <= j < k
      ensures !Applies(GetAddr(page, recs[j].pageOffset), buf, tail, s.diffPos)
    {
      assert recs[j].pageOffset < recs[k].pageOffset by { assert Ascending(recs); }
    }
    PassOver(e, buf, tail, page, recs, 0, k, s);
  }

  lemma CountsAll(e: Env, buf: nat, page: nat, r: MemRec, from: nat, n: nat)
    requires page == PageNum(buf) && r.pageOffset == PageOffset(buf) && FileAddress(e, r) == Some(from)
    requires Same(e.mem, buf, from, n)
    ensures var len := if Alarm(e, buf, from, n) then n - 1 else n;
      StepRec(e, buf, buf + n, page, r, Scan(0, [], 0)) == Scan(buf + len, [Hit(buf, len, from)], 0)
  {
    hide FileAddress;
    FirstDiffersIsPrefix(e.mem, buf, from, n, n);
    assert GetAddr(page, r.pageOffset) == buf;
  }

  /** The write, when the page of the buffer is traced. */
  lemma FwriteTraced(e: Env, v: View, buf: nat, n: nat)
    requires Recs(v, PageNum(buf)) != []
    ensures Fwrite(e, v, buf, n)
      == ScanPages(e, v, buf, buf + n, PageNum(buf) + 1,
                   ScanPage(e, buf, buf + n, PageNum(buf), Recs(v, PageNum(buf)), 0, Scan(0, [], 0)))
  {
    hide ScanPage;
    FwriteOpens(e, v, buf, n);
    assert VisitPage(e, v, buf, buf + n, PageNum(buf), Scan(0, [], 0))
      == ScanPage(e, buf, buf + n, PageNum(buf), Recs(v, PageNum(buf)), 0, Scan(0, [], 0));
  }

  lemma TotalOfOne(h: Hit)
    ensures Total([h]) == h.len
  {
    assert [h][..0] == [];
  }

  // ---- Where the moved record is -------------------------------------------------------------

  /** The record just made is the last of its page. */
  lemma JustMade(v: View, a: Arrival)
    requires WellFormed(v)
    ensures var s := Recs(Insert(v, a), a.Page()); s != [] && s[|s| - 1] == a.Rec()
    ensures WellFormed(Insert(v, a))
  {
    InsertKeepsWellFormed(v, a);
  }

  /** It is copied, and lands at the destination of the move. */
  lemma MovedLands(v: View, a: Arrival, dest: nat, n: nat)
    requires WellFormed(v) && Separate(dest, a.dest, n)
    ensures MovedRec(a, dest) in Landed(Insert(v, a), dest, a.dest, n, PageNum(dest))
  {
    JustMade(v, a);
    var w, p := Insert(v, a), a.Page();
    LandedExactly(w, dest, a.dest, n, PageNum(dest));
    assert GetAddr(p, a.Rec().pageOffset) == a.dest;
    assert IsSource(w, a.dest, PageNum(a.dest + n) + 1, p, a.Rec());
    assert Shifted(dest, a.dest, p, a.Rec()).dest == dest by { NoWrap(dest, a.dest, n); }
    assert Shifted(dest, a.dest, p, a.Rec()).Rec() == MovedRec(a, dest);
    assert Lands(w, dest, a.dest, PageNum(a.dest + n) + 1, PageNum(dest), MovedRec(a, dest));
  }

  lemma NoWrap(dest: nat, src: nat, n: nat)
    requires Separate(dest, src, n)
    ensures dest < TWO64 && U64(dest + src - src) == dest
  {
  }

  /** The record a at its new address. */
  function MovedRec(a: Arrival, dest: nat): MemRec {
    MemRec(a.fileOffset, a.fileName, PageOffset(dest), a.fd)
  }

  /** It is in the destination page after the move. */
  lemma MovedIsThere(v: View, a: Arrival, dest: nat, n: nat) returns (k: nat)
    requires WellFormed(v) && Separate(dest, a.dest, n)
    ensures var s := Recs(MemcpyTraced(Insert(v, a), dest, a.dest, n), PageNum(dest));
      k < |s| && s[k] == MovedRec(a, dest)
    ensures WellFormed(MemcpyTraced(Insert(v, a), dest, a.dest, n))
  {
    hide *;
    var w, q := Insert(v, a), PageNum(dest);
    var landed := Landed(w, dest, a.dest, n, q);
    JustMade(v, a);
    MovedLands(v, a, dest, n);
    TracedCopy(w, dest, a.dest, n, q);
    LandedExactly(w, dest, a.dest, n, q);
    var i :| 0 <= i < |landed| && landed[i] == MovedRec(a, dest);
    PageIsWithin(a.dest, n);
    k := |Survivors(Recs(w, q), landed[0])| + i;
  }

  lemma PageIsWithin(src: nat, n: nat)
    ensures PageNum(src) <= PageNum(src + n)
  {
  }

  // ---- The theorem ---------------------------------------------------------------------------

  lemma CopiedTwice(mem: Mem, d1: nat, d2: nat, src: nat, n: nat)
    requires d1 + n <= src || src + n <= d1
    requires d2 + n <= src || src + n <= d2
    requires d2 + n <= d1 || d1 + n <= d2
    ensures Same(Copied(Copied(mem, d1, src, n), d2, d1, n), d2, src, n)
  {
    var mem2 := Copied(Copied(mem, d1, src, n), d2, d1, n);
    var d := src - d2;
    assert forall x :: d2 <= x < d2 + n ==> EqualAt(mem2, x, d);
  }

  lemma SeparateRanges(dest: nat, src: nat, n: nat)
    requires Separate(dest, src, n)
    ensures dest + n <= src || src + n <= dest
  {
  }

  /** n bytes are copied out of a mapping to d1, moved from there to d2 and written from d2, with no
      page on both sides of the move: whatever the tree of mappings looks like, all n count as same when
      no mapping clashes, if and only if there is no false alarm that a record at the last byte does not
      make up for. */
  lemma MovedCopyCounts(e: Env, maps: Tree<FileMap>, v: View, d1: nat, d2: nat, src: nat, n: nat)
    requires WellFormed(v) && Registered(InOrder(maps), e.names) && Separate(d2, d1, n)
    requires Inside(InOrder(maps), src, n) && !Clash(InOrder(maps), src, n)
    requires (d1 + n <= src || src + n <= d1) && (d2 + n <= src || src + n <= d2)
    ensures var e2 := e.(mem := Copied(Copied(e.mem, d1, src, n), d2, d1, n));
      var v2 := MemcpyTraced(MemcpyView(maps, v, d1, src, n), d2, d1, n);
      && (Total(Fwrite(e2, v2, d2, n).hits) == n <==>
            (Alarm(e2, d2, src, n) ==> LastByteCounts(e2, v2, d2, d2 + n - 1)))
      && (e.comparer.ByteLoop? || (n != 2 && n != 3) ==> Total(Fwrite(e2, v2, d2, n).hits) == n)
  {
    hide *;
    var e2 := e.(mem := Copied(Copied(e.mem, d1, src, n), d2, d1, n));
    AlarmIsShort(e2, d2, src, n);
    NoAlarm(e2, d2, src, n);
    if n == 0 {
      MemcpyKeepsWellFormed(maps, v, d1, src, n);
      TracedCopy(MemcpyView(maps, v, d1, src, n), d2, d1, n, 0);
      FwriteSound(e2, MemcpyTraced(MemcpyView(maps, v, d1, src, n), d2, d1, n), d2, n);
    } else {
      var f := FoundUsable(maps, e.names, src, n);
      ClashIs(InOrder(maps), src, n, f);
      FoundView(maps, v, f, d1, src, n);
      SeparateRanges(d2, d1, n);
      CopiedTwice(e.mem, d1, d2, src, n);
      var a := CopyRecord(f, d1, src);
      CopyGoesTo(f, d1, src);
      var k := MovedIsThere(v, a, d2, n);
      RecordPointsBack(e2, f, f, d2, src);
      MovedCopyRecord(f, d1, d2, src);
      RecordAtBufCounts(e2, MemcpyTraced(Insert(v, a), d2, d1, n), d2, n, k, src);
    }
  }

  lemma MovedCopyRecord(m: FileMap, d1: nat, d2: nat, src: nat)
    ensures MovedRec(CopyRecord(m, d1, src), d2) == CopyRecord(m, d2, src).Rec()
    ensures MovedRec(CopyRecord(m, d1, src), d2).pageOffset == PageOffset(d2)
  {
  }
}
