/** Two copies next to each other, written out with one write: the comparison from the first record
    does not stop at the seam, so where it ends decides whether the second record is looked at. */
module Seams {
  import opened Addr
  import opened Bst
  import opened EndToEnd
  import opened MatchSpec
  import opened Memory
  import opened MoveToEnd
  import opened TraceSpec

  /** Two records, the second n1 bytes behind the first, on the same page or on a later one, each leading
      to bytes equal to those of its copy. */
  ghost predicate Neighbours(e: Env, a1: Arrival, a2: Arrival, src1: nat, src2: nat, n1: nat, n2: nat) {
    && n1 > 0 && n2 > 0 && a2.dest == a1.dest + n1
    && FileAddress(e, a1.Rec()) == Some(src1) && Same(e.mem, a1.dest, src1, n1)
    && FileAddress(e, a2.Rec()) == Some(src2) && Same(e.mem, a2.dest, src2, n2)
  }

  /** What the first record counts, in a write of both copies. */
  function Reach(e: Env, dest: nat, src1: nat, n1: nat, n2: nat): nat {
    PrefixLen(e, dest, src1, n1 + n2)
  }

  /** It reaches the seam at least. */
  lemma ReachesSeam(e: Env, a1: Arrival, a2: Arrival, src1: nat, src2: nat, n1: nat, n2: nat)
    requires Neighbours(e, a1, a2, src1, src2, n1, n2)
    ensures n1 <= Reach(e, a1.dest, src1, n1, n2) <= n1 + n2
  {
    var c := CommonPrefix(e.mem, a1.dest, src1, n1 + n2);
    assert c < n1 ==> EqualAt(e.mem, a1.dest + c, src1 - a1.dest);
  }

  /** What the second record counts when it is looked at. */
  lemma SecondCounts(e: Env, a1: Arrival, a2: Arrival, src1: nat, src2: nat, n1: nat, n2: nat)
    requires Neighbours(e, a1, a2, src1, src2, n1, n2)
    ensures PrefixLen(e, a2.dest, src2, n2) == if Alarm(e, a2.dest, src2, n2) then n2 - 1 else n2
  {
    FirstDiffersIsPrefix(e.mem, a2.dest, src2, n2, n2);
  }

  /** The page after the two copies: the two records are its last. */
  lemma TwoRecords(v: View, a1: Arrival, a2: Arrival)
    requires WellFormed(v) && a2.Page() == a1.Page() && a1.dest < a2.dest
    ensures WellFormed(Insert(Insert(v, a1), a2))
    ensures var s := Recs(Insert(Insert(v, a1), a2), a1.Page());
      |s| >= 2 && s[|s| - 2] == a1.Rec() && s[|s| - 1] == a2.Rec()
  {
    InsertKeepsWellFormed(v, a1);
    InsertKeepsWellFormed(Insert(v, a1), a2);
  }

  /** One comparison at an address of the buffer. */
  lemma Compared(e: Env, buf: nat, tail: nat, page: nat, a: Arrival, src: nat, s: Scan)
    requires a.Page() == page && FileAddress(e, a.Rec()) == Some(src) && buf <= a.dest <= tail
    ensures StepRec(e, buf, tail, page, a.Rec(), s)
      == if s.diffPos <= a.dest
         then Scan(a.dest + PrefixLen(e, a.dest, src, tail - a.dest),
                   s.hits + [Hit(a.dest, PrefixLen(e, a.dest, src, tail - a.dest), src)], s.notFound)
         else s
  {
    hide FileAddress, PrefixLen;
    assert GetAddr(page, a.Rec().pageOffset) == a.dest;
  }

  /** Pages that are not traced add nothing to the count. */
  lemma {:induction false} UntracedAddNothing(e: Env, v: View, buf: nat, tail: nat, page: nat, s: Scan)
    requires forall p :: page <= p <= PageNum(tail) ==> p !in v
    ensures ScanPages(e, v, buf, tail, page, s).hits == s.hits
    decreases PageNum(tail) + 1 - page
  {
    if page <= PageNum(tail) {
      UntracedAddNothing(e, v, buf, tail, page + 1, VisitPage(e, v, buf, tail, page, s));
    }
  }

  /** The scan of the page the two copies are on, when it is one. */
  lemma SeamScanned(e: Env, v: View, a1: Arrival, a2: Arrival, src1: nat, src2: nat, n1: nat, n2: nat)
    requires WellFormed(v) && Neighbours(e, a1, a2, src1, src2, n1, n2) && a2.Page() == a1.Page()
    ensures var v2 := Insert(Insert(v, a1), a2);
      var page, tail, reach := a1.Page(), a1.dest + n1 + n2, Reach(e, a1.dest, src1, n1, n2);
      ScanPage(e, a1.dest, tail, page, Recs(v2, page), 0, Scan(0, [], 0))
        == if reach == n1
           then var more := PrefixLen(e, a2.dest, src2, n2);
                Scan(a2.dest + more, [Hit(a1.dest, reach, src1), Hit(a2.dest, more, src2)], 0)
           else Scan(a1.dest + reach, [Hit(a1.dest, reach, src1)], 0)
  {
    hide *;
    NeighboursAre(e, a1, a2, src1, src2, n1, n2);
    var v2 := Insert(Insert(v, a1), a2);
    var page, tail, reach := a1.Page(), a1.dest + n1 + n2, Reach(e, a1.dest, src1, n1, n2);
    var recs, s0 := Recs(v2, page), Scan(0, [], 0);
    TwoRecords(v, a1, a2);
    IsOnPage(a1);
    RecOffset(a1);
    var k := |recs| - 2;
    BeforeBuf(e, v2, a1.dest, tail, k, s0);
    ScanStep(e, a1.dest, tail, page, recs, k, s0);
    Compared(e, a1.dest, tail, page, a1, src1, s0);
    ReachIs(e, a1.dest, src1, n1, n2);
    assert tail - a1.dest == n1 + n2 && tail - a2.dest == n2;
    assert [] + [Hit(a1.dest, reach, src1)] == [Hit(a1.dest, reach, src1)];
    var s1 := Scan(a1.dest + reach, [Hit(a1.dest, reach, src1)], 0);
    ScanStep(e, a1.dest, tail, page, recs, k + 1, s1);
    Compared(e, a1.dest, tail, page, a2, src2, s1);
    ReachesSeam(e, a1, a2, src1, src2, n1, n2);
    var s2 := StepRec(e, a1.dest, tail, page, a2.Rec(), s1);
    ScanEnd(e, a1.dest, tail, page, recs, s2);
    assert s1.hits + [Hit(a2.dest, PrefixLen(e, a2.dest, src2, n2), src2)]
        == [Hit(a1.dest, reach, src1), Hit(a2.dest, PrefixLen(e, a2.dest, src2, n2), src2)];
  }

  lemma NeighboursAre(e: Env, a1: Arrival, a2: Arrival, src1: nat, src2: nat, n1: nat, n2: nat)
    requires Neighbours(e, a1, a2, src1, src2, n1, n2)
    ensures n1 > 0 && n2 > 0 && a2.dest == a1.dest + n1
    ensures FileAddress(e, a1.Rec()) == Some(src1) && FileAddress(e, a2.Rec()) == Some(src2)
  {
  }

  lemma RecOffset(a: Arrival)
    ensures a.Rec().pageOffset == PageOffset(a.dest)
  {
  }

  lemma ReachIs(e: Env, dest: nat, src1: nat, n1: nat, n2: nat)
    ensures Reach(e, dest, src1, n1, n2) == PrefixLen(e, dest, src1, n1 + n2)
  {
  }

  /** The page of the second copy is scanned when it is that of the first, or when the second copy starts
      where its page does: otherwise the page starts before diffPos and is skipped. */
  predicate PageScanned(a1: Arrival, a2: Arrival) {
    a2.Page() == a1.Page() || PageOffset(a2.dest) == 0
  }

  /** What is counted, from where the first comparison ends. */
  function SeamTotal(e: Env, a1: Arrival, a2: Arrival, src1: nat, src2: nat, n1: nat, n2: nat): int {
    var reach := Reach(e, a1.dest, src1, n1, n2);
    if reach == n1 && PageScanned(a1, a2) then n1 + PrefixLen(e, a2.dest, src2, n2) else reach
  }

  // ---- Both copies on one page -------------------------------------------------------------------

  lemma OnePage(e: Env, v: View, a1: Arrival, a2: Arrival, src1: nat, src2: nat, n1: nat, n2: nat)
    requires WellFormed(v) && Neighbours(e, a1, a2, src1, src2, n1, n2) && a2.Page() == a1.Page()
    requires forall p :: a2.Page() < p <= PageNum(a1.dest + n1 + n2) ==> p !in v
    ensures Total(Fwrite(e, Insert(Insert(v, a1), a2), a1.dest, n1 + n2).hits)
         == SeamTotal(e, a1, a2, src1, src2, n1, n2)
  {
    hide *;
    NeighboursAre(e, a1, a2, src1, src2, n1, n2);
    var v2 := Insert(Insert(v, a1), a2);
    var page, tail, reach := a1.Page(), a1.dest + n1 + n2, Reach(e, a1.dest, src1, n1, n2);
    TwoRecords(v, a1, a2);
    IsOnPage(a1);
    SeamScanned(e, v, a1, a2, src1, src2, n1, n2);
    FwriteTraced(e, v2, a1.dest, n1 + n2);
    var s := ScanPage(e, a1.dest, tail, page, Recs(v2, page), 0, Scan(0, [], 0));
    StillUntraced(v, a1, a2, PageNum(tail));
    UntracedAddNothing(e, v2, a1.dest, tail, page + 1, s);
    TwoTotals(e, a1, a2, src1, src2, n1, n2);
    SeamTotalIs(e, a1, a2, src1, src2, n1, n2);
  }

  lemma TwoTotals(e: Env, a1: Arrival, a2: Arrival, src1: nat, src2: nat, n1: nat, n2: nat)
    ensures var reach, more := Reach(e, a1.dest, src1, n1, n2), PrefixLen(e, a2.dest, src2, n2);
      && Total([Hit(a1.dest, reach, src1)]) == reach
      && Total([Hit(a1.dest, reach, src1), Hit(a2.dest, more, src2)]) == reach + more
  {
    hide *;
    var reach, more := Reach(e, a1.dest, src1, n1, n2), PrefixLen(e, a2.dest, src2, n2);
    TotalOfOne(Hit(a1.dest, reach, src1));
    TotalOfOneMore([Hit(a1.dest, reach, src1)], Hit(a2.dest, more, src2));
    assert [Hit(a1.dest, reach, src1)] + [Hit(a2.dest, more, src2)]
        == [Hit(a1.dest, reach, src1), Hit(a2.dest, more, src2)];
  }

  lemma SeamTotalIs(e: Env, a1: Arrival, a2: Arrival, src1: nat, src2: nat, n1: nat, n2: nat)
    ensures var reach := Reach(e, a1.dest, src1, n1, n2);
      SeamTotal(e, a1, a2, src1, src2, n1, n2)
        == if reach == n1 && PageScanned(a1, a2) then n1 + PrefixLen(e, a2.dest, src2, n2) else reach
    ensures PageScanned(a1, a2) <==> a2.Page() == a1.Page() || PageOffset(a2.dest) == 0
  {
  }

  lemma StillUntraced(v: View, a1: Arrival, a2: Arrival, last: nat)
    requires a1.Page() <= a2.Page() && forall p :: a2.Page() < p <= last ==> p !in v
    ensures forall p :: a2.Page() + 1 <= p <= last ==> p !in Insert(Insert(v, a1), a2)
  {
  }

  // ---- The second copy on a later page ------------------------------------------------------------

  /** Pages that start before diffPos are skipped. */
  lemma {:induction false} SkipPages(e: Env, v: View, buf: nat, tail: nat, page: nat, page': nat, s: Scan)
    requires page <= page' <= PageNum(tail) + 1
    requires forall p :: page <= p < page' ==> GetAddr(p, 0) < s.diffPos
    ensures ScanPages(e, v, buf, tail, page, s) == ScanPages(e, v, buf, tail, page', s)
    decreases page' - page
  {
    if page < page' { SkipPages(e, v, buf, tail, page + 1, page', s); }
  }

  /** The first page: all that is looked at there is the first record. */
  lemma FirstOfTwo(e: Env, v: View, a1: Arrival, a2: Arrival, src1: nat, n1: nat, n2: nat)
    requires WellFormed(v) && a1.Page() < a2.Page() && FileAddress(e, a1.Rec()) == Some(src1)
    ensures var tail, reach := a1.dest + n1 + n2, Reach(e, a1.dest, src1, n1, n2);
      Fwrite(e, Insert(Insert(v, a1), a2), a1.dest, n1 + n2)
        == ScanPages(e, Insert(Insert(v, a1), a2), a1.dest, tail, a1.Page() + 1,
                     Scan(a1.dest + reach, [Hit(a1.dest, reach, src1)], 0))
  {
    hide *;
    var v1, s0 := Insert(v, a1), Scan(0, [], 0);
    FirstPage(e, v, a1, n1 + n2);
    IsOnPage(a1);
    FwriteOpens(e, Insert(v1, a2), a1.dest, n1 + n2);
    OtherPageSame(e, v1, a2, a1.dest, a1.dest + n1 + n2, a1.Page(), s0);
    Compared(e, a1.dest, a1.dest + n1 + n2, a1.Page(), a1, src1, s0);
    ReachIs(e, a1.dest, src1, n1, n2);
    assert a1.dest + n1 + n2 - a1.dest == n1 + n2;
    var h := Hit(a1.dest, Reach(e, a1.dest, src1, n1, n2), src1);
    assert [] + [h] == [h];
  }

  lemma OtherPageSame(e: Env, v: View, a: Arrival, buf: nat, tail: nat, page: nat, s: Scan)
    requires page != a.Page()
    ensures VisitPage(e, Insert(v, a), buf, tail, page, s) == VisitPage(e, v, buf, tail, page, s)
  {
  }

  /** A record at offset 0 is alone on its page. */
  lemma AloneAtZero(e: Env, v: View, a: Arrival, buf: nat, tail: nat, src: nat, s: Scan)
    requires PageOffset(a.dest) == 0 && FileAddress(e, a.Rec()) == Some(src) && buf <= a.dest <= tail
    requires s.diffPos == a.dest
    ensures VisitPage(e, Insert(v, a), buf, tail, a.Page(), s)
      == Scan(a.dest + PrefixLen(e, a.dest, src, tail - a.dest),
              s.hits + [Hit(a.dest, PrefixLen(e, a.dest, src, tail - a.dest), src)], s.notFound)
  {
    Compared(e, buf, tail, a.Page(), a, src, s);
    hide FileAddress, PrefixLen, StepRec;
    assert Insert(v, a)[a.Page()] == [a.Rec()];
    assert GetAddr(a.Page(), 0) == a.dest;
    ScanStep(e, buf, tail, a.Page(), [a.Rec()], 0, s);
    ScanEnd(e, buf, tail, a.Page(), [a.Rec()], StepRec(e, buf, tail, a.Page(), a.Rec(), s));
  }

  lemma PagesOrdered(a1: Arrival, a2: Arrival, tail: nat)
    requires a1.dest < a2.dest <= tail
    ensures a1.Page() <= a2.Page() <= PageNum(tail)
    ensures forall p: nat :: p < a2.Page() ==> GetAddr(p, 0) < a2.dest
    ensures GetAddr(a2.Page(), 0) <= a2.dest && (GetAddr(a2.Page(), 0) == a2.dest <==> PageOffset(a2.dest) == 0)
  {
  }

  lemma TwoPages(e: Env, v: View, a1: Arrival, a2: Arrival, src1: nat, src2: nat, n1: nat, n2: nat)
    requires WellFormed(v) && Neighbours(e, a1, a2, src1, src2, n1, n2) && a1.Page() < a2.Page()
    requires forall p :: a2.Page() < p <= PageNum(a1.dest + n1 + n2) ==> p !in v
    ensures Total(Fwrite(e, Insert(Insert(v, a1), a2), a1.dest, n1 + n2).hits)
         == SeamTotal(e, a1, a2, src1, src2, n1, n2)
  {
    hide *;
    NeighboursAre(e, a1, a2, src1, src2, n1, n2);
    ReachesSeam(e, a1, a2, src1, src2, n1, n2);
    var v1, tail, reach := Insert(v, a1), a1.dest + n1 + n2, Reach(e, a1.dest, src1, n1, n2);
    var v2, s1 := Insert(v1, a2), Scan(a1.dest + reach, [Hit(a1.dest, reach, src1)], 0);
    FirstOfTwo(e, v, a1, a2, src1, n1, n2);
    PagesOrdered(a1, a2, tail);
    StillUntraced(v, a1, a2, PageNum(tail));
    TwoTotals(e, a1, a2, src1, src2, n1, n2);
    SeamTotalIs(e, a1, a2, src1, src2, n1, n2);
    if reach == n1 && PageOffset(a2.dest) == 0 {
      SkipPages(e, v2, a1.dest, tail, a1.Page() + 1, a2.Page(), s1);
      AloneAtZero(e, v1, a2, a1.dest, tail, src2, s1);
      var more := PrefixLen(e, a2.dest, src2, n2);
      assert tail - a2.dest == n2;
      assert s1.hits + [Hit(a2.dest, more, src2)] == [Hit(a1.dest, reach, src1), Hit(a2.dest, more, src2)];
      var s2 := VisitPage(e, v2, a1.dest, tail, a2.Page(), s1);
      PageOpens(e, v2, a1.dest, tail, a2.Page(), s1);
      UntracedAddNothing(e, v2, a1.dest, tail, a2.Page() + 1, s2);
    } else {
      SkipPages(e, v2, a1.dest, tail, a1.Page() + 1, a2.Page() + 1, s1);
      UntracedAddNothing(e, v2, a1.dest, tail, a2.Page() + 1, s1);
    }
  }

  lemma PageOpens(e: Env, v: View, buf: nat, tail: nat, page: nat, s: Scan)
    requires page <= PageNum(tail)
    ensures ScanPages(e, v, buf, tail, page, s)
      == ScanPages(e, v, buf, tail, page + 1, VisitPage(e, v, buf, tail, page, s))
  {
  }

  // ---- The theorem --------------------------------------------------------------------------------

  /** Two copies of n1 and n2 bytes side by side, the pages behind that of the second not traced, in one
      write. The first record counts as far as its own file goes on like the buffer. The second is looked
      at only when that is exactly the seam, and then only on the page of the first or at the start of a
      page. All bytes count if and only if the first record reaches the end, or it ends at the seam, the
      second is looked at and there is no false alarm on it; otherwise it is what the first one reaches,
      or all but the last byte. */
  lemma TwoCopies(e: Env, v: View, a1: Arrival, a2: Arrival, src1: nat, src2: nat, n1: nat, n2: nat)
    requires WellFormed(v) && Neighbours(e, a1, a2, src1, src2, n1, n2)
    requires forall p :: a2.Page() < p <= PageNum(a1.dest + n1 + n2) ==> p !in v
    ensures var reach := Reach(e, a1.dest, src1, n1, n2);
      var alarm, looked := Alarm(e, a2.dest, src2, n2), a2.Page() == a1.Page() || PageOffset(a2.dest) == 0;
      var same := Total(Fwrite(e, Insert(Insert(v, a1), a2), a1.dest, n1 + n2).hits);
      && n1 <= reach <= n1 + n2
      && same == (if reach > n1 || !looked then reach else if alarm then n1 + n2 - 1 else n1 + n2)
      && (same == n1 + n2 <==> reach == n1 + n2 || (reach == n1 && !alarm && looked))
  {
    hide *;
    NeighboursAre(e, a1, a2, src1, src2, n1, n2);
    PagesOrdered(a1, a2, a1.dest + n1 + n2);
    if a2.Page() == a1.Page() {
      OnePage(e, v, a1, a2, src1, src2, n1, n2);
    } else {
      TwoPages(e, v, a1, a2, src1, src2, n1, n2);
    }
    SeamTotalIs(e, a1, a2, src1, src2, n1, n2);
    ReachesSeam(e, a1, a2, src1, src2, n1, n2);
    SecondCounts(e, a1, a2, src1, src2, n1, n2);
    AlarmIsShort(e, a2.dest, src2, n2);
  }
}
