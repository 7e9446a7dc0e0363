/** What ts_memcpy_traced of the default build does to the trace: the records of the source pages
    are inserted again, shifted to the destination, and the first source page is cut off where
    the copy starts. */
module TracedSpec {
  import opened Addr
  import opened TraceSpec

  /** Index of the first record at or behind an offset. */
  function FirstAtLeast(s: seq<MemRec>, offset: nat): (k: nat)
    ensures k <= |s| && forall j :: 0 <= j < k ==> s[j].pageOffset < offset
    ensures k < |s| ==> s[k].pageOffset >= offset
  {
    if s == [] || s[0].pageOffset >= offset then 0 else 1 + FirstAtLeast(s[1..], offset)
  }

  /** Where the records of page p start that are copied. */
  function From(v: View, src: nat, p: nat): (k: nat)
    ensures k <= |Recs(v, p)|
  {
    if p == PageNum(src) then FirstAtLeast(Recs(v, p), PageOffset(src)) else 0
  }

  /** The record r of page p, at its new address. */
  function Shifted(dest: nat, src: nat, p: nat, r: MemRec): Arrival {
    Arrival(U64(dest + GetAddr(p, r.pageOffset) - src), r.fileOffset, r.fileName, r.fd)
  }

  function ShiftedAll(dest: nat, src: nat, p: nat, s: seq<MemRec>): (r: seq<Arrival>)
    ensures |r| == |s|
  {
    seq(|s|, i requires 0 <= i < |s| => Shifted(dest, src, p, s[i]))
  }

  /** The insertions, page by page up to `end`. */
  function Copies(v: View, dest: nat, src: nat, end: nat): seq<Arrival>
    decreases end
  {
    if end <= PageNum(src) then []
    else Copies(v, dest, src, end - 1) + ShiftedAll(dest, src, end - 1, Recs(v, end - 1)[From(v, src, end - 1)..])
  }

  /** The first source page is cut off where the copy starts. */
  function Truncated(v: View, src: nat): View {
    var p := PageNum(src);
    if p in v then v[p := v[p][..From(v, src, p)]] else v
  }

  function MemcpyTraced(v: View, dest: nat, src: nat, n: nat): View {
    InsertAll(Truncated(v, src), Copies(v, dest, src, PageNum(src + n) + 1))
  }

  /** What page p keeps of its own records when it is copied from. */
  function Kept(v: View, src: nat, p: nat): seq<MemRec> {
    if p == PageNum(src) then Recs(v, p)[..From(v, src, p)] else Recs(v, p)
  }

  /** The trace when the source pages below p have been dealt with. */
  function After(v: View, dest: nat, src: nat, p: nat): View {
    InsertAll(if p <= PageNum(src) then v else Truncated(v, src), Copies(v, dest, src, p))
  }

  /** First address behind the pages that are copied from. */
  function SourceEnd(src: nat, n: nat): (r: nat)
    ensures r > src + n
  {
    GetAddr(PageNum(src + n) + 1, 0)
  }

  function LastDestPage(dest: nat, src: nat, n: nat): (r: nat)
    ensures r >= PageNum(dest)
  {
    PageNum(dest + (SourceEnd(src, n) - 1 - src))
  }

  /** No page is both copied from and copied to, and no address wraps around. */
  ghost predicate Separate(dest: nat, src: nat, n: nat) {
    && (PageNum(src + n) < PageNum(dest) || LastDestPage(dest, src, n) < PageNum(src))
    && dest + SourceEnd(src, n) - src <= TWO64
  }

  // ---- The insertions are the shifted records, in ascending order --------------------------------

  /** Record r of page p is one that is copied. */
  ghost predicate IsSource(v: View, src: nat, end: nat, p: nat, r: MemRec) {
    PageNum(src) <= p < end && r in Recs(v, p) && GetAddr(p, r.pageOffset) >= src
  }

  lemma FromIsCut(v: View, src: nat, p: nat, i: nat)
    requires WellFormed(v) && PageNum(src) <= p && i < |Recs(v, p)|
    ensures i >= From(v, src, p) <==> GetAddr(p, Recs(v, p)[i].pageOffset) >= src
  {
    var s, k := Recs(v, p), From(v, src, p);
    if p == PageNum(src) {
      assert k < i ==> s[k].pageOffset < s[i].pageOffset;
      assert src == GetAddr(p, PageOffset(src));
    } else {
      assert GetAddr(p, 0) >= GetAddr(PageNum(src) + 1, 0) > src;
    }
  }

  /** An insertion is the shifted copy of a record. */
  ghost predicate IsCopy(v: View, dest: nat, src: nat, end: nat, a: Arrival) {
    exists p, r :: IsSource(v, src, end, p, r) && a == Shifted(dest, src, p, r)
  }

  ghost predicate IsCopyOf(v: View, dest: nat, src: nat, p: nat, a: Arrival) {
    exists r :: IsSource(v, src, p + 1, p, r) && a == Shifted(dest, src, p, r)
  }

  lemma PageCopies(v: View, dest: nat, src: nat, p: nat, a: Arrival)
    requires WellFormed(v) && PageNum(src) <= p
    ensures a in ShiftedAll(dest, src, p, Recs(v, p)[From(v, src, p)..]) <==> IsCopyOf(v, dest, src, p, a)
  {
    hide Shifted, GetAddr, WellFormed, From;
    var s, k := Recs(v, p), From(v, src, p);
    var last := ShiftedAll(dest, src, p, s[k..]);
    if a in last {
      var i :| 0 <= i < |last| && last[i] == a;
      FromIsCut(v, src, p, k + i);
      assert IsSource(v, src, p + 1, p, s[k + i]);
    }
    if r :| IsSource(v, src, p + 1, p, r) && a == Shifted(dest, src, p, r) {
      var i :| 0 <= i < |s| && s[i] == r;
      FromIsCut(v, src, p, i);
      assert last[i - k] == a;
    }
  }

  lemma IsCopyStep(v: View, dest: nat, src: nat, p: nat, a: Arrival)
    requires PageNum(src) <= p
    ensures IsCopy(v, dest, src, p + 1, a) <==> IsCopy(v, dest, src, p, a) || IsCopyOf(v, dest, src, p, a)
  {
    hide Shifted, GetAddr;
    if q, r :| IsSource(v, src, p, q, r) && a == Shifted(dest, src, q, r) {
      assert IsSource(v, src, p + 1, q, r);
    }
    if q, r :| IsSource(v, src, p + 1, q, r) && a == Shifted(dest, src, q, r) {
      assert q != p ==> IsSource(v, src, p, q, r);
    }
  }

  lemma {:induction false} CopiesAre(v: View, dest: nat, src: nat, end: nat, a: Arrival)
    requires WellFormed(v)
    ensures a in Copies(v, dest, src, end) <==> IsCopy(v, dest, src, end, a)
    decreases end
  {
    hide *;
    if end > PageNum(src) {
      CopiesStep(v, dest, src, end);
      CopiesAre(v, dest, src, end - 1, a);
      PageCopies(v, dest, src, end - 1, a);
      IsCopyStep(v, dest, src, end - 1, a);
      InConcat(Copies(v, dest, src, end - 1),
               ShiftedAll(dest, src, end - 1, Recs(v, end - 1)[From(v, src, end - 1)..]), a);
    } else {
      NoSourcePages(v, dest, src, end, a);
    }
  }

  lemma InConcat<T>(s: seq<T>, t: seq<T>, x: T)
    ensures x in s + t <==> x in s || x in t
  {
  }

  lemma CopiesStep(v: View, dest: nat, src: nat, end: nat)
    requires end > PageNum(src)
    ensures Copies(v, dest, src, end)
      == Copies(v, dest, src, end - 1) + ShiftedAll(dest, src, end - 1, Recs(v, end - 1)[From(v, src, end - 1)..])
  {
  }

  lemma NoSourcePages(v: View, dest: nat, src: nat, end: nat, a: Arrival)
    requires end <= PageNum(src)
    ensures !IsCopy(v, dest, src, end, a) && Copies(v, dest, src, end) == []
  {
  }

  /** Where a copied record goes, when nothing wraps around. */
  lemma ShiftedAddress(v: View, dest: nat, src: nat, n: nat, end: nat, p: nat, r: MemRec)
    requires WellFormed(v) && Separate(dest, src, n) && end <= PageNum(src + n) + 1 && IsSource(v, src, end, p, r)
    ensures Shifted(dest, src, p, r).dest == dest + GetAddr(p, r.pageOffset) - src < dest + GetAddr(p + 1, 0) - src
    ensures dest <= Shifted(dest, src, p, r).dest < dest + GetAddr(end, 0) - src
  {
    assert GetAddr(p, r.pageOffset) < GetAddr(p + 1, 0) <= GetAddr(end, 0) <= SourceEnd(src, n) by {
      assert InPage(v[p]);
    }
  }

  /** Where record i of page p goes. */
  lemma CopyAddress(v: View, dest: nat, src: nat, n: nat, p: nat, i: nat)
    requires WellFormed(v) && Separate(dest, src, n) && PageNum(src) <= p <= PageNum(src + n)
    requires From(v, src, p) <= i < |Recs(v, p)|
    ensures Shifted(dest, src, p, Recs(v, p)[i]).dest == dest + GetAddr(p, Recs(v, p)[i].pageOffset) - src
  {
    hide WellFormed, Separate, From, GetAddr, Shifted;
    FromIsCut(v, src, p, i);
    assert IsSource(v, src, p + 1, p, Recs(v, p)[i]);
    ShiftedAddress(v, dest, src, n, p + 1, p, Recs(v, p)[i]);
  }

  /** The insertions of one page ascend, behind a given address. */
  lemma PageCopiesAscend(v: View, dest: nat, src: nat, n: nat, p: nat)
    requires WellFormed(v) && Separate(dest, src, n) && PageNum(src) <= p <= PageNum(src + n)
    ensures var last := ShiftedAll(dest, src, p, Recs(v, p)[From(v, src, p)..]);
      AscendingDests(last) && forall i :: 0 <= i < |last| ==> last[i].dest >= dest + GetAddr(p, 0) - src
  {
    hide WellFormed, Separate, From, GetAddr, Shifted, Ascending;
    var s, k := Recs(v, p), From(v, src, p);
    var last := ShiftedAll(dest, src, p, s[k..]);
    RecsAscend(v, p);
    forall i | 0 <= i < |last|
      ensures last[i].dest == dest + GetAddr(p, s[k + i].pageOffset) - src >= dest + GetAddr(p, 0) - src
    {
      CopyAddress(v, dest, src, n, p, k + i);
      LargerOffsets(p);
    }
    forall i, j | 0 <= i < j < |last|
      ensures last[i].dest < last[j].dest
    {
      AscendsAt(s, k + i, k + j);
      LargerOffset(p, s[k + i].pageOffset, s[k + j].pageOffset);
    }
  }

  lemma RecsAscend(v: View, page: nat)
    requires WellFormed(v)
    ensures Ascending(Recs(v, page))
  {
  }

  lemma AscendsAt(s: seq<MemRec>, i: nat, j: nat)
    requires Ascending(s) && i < j < |s|
    ensures s[i].pageOffset < s[j].pageOffset
  {
  }

  lemma LargerOffset(p: nat, x: nat, y: nat)
    requires x < y
    ensures GetAddr(p, x) < GetAddr(p, y)
  {
  }

  lemma LargerOffsets(p: nat)
    ensures forall x: nat :: GetAddr(p, x) >= GetAddr(p, 0)
  {
  }

  lemma AscendingConcat(s: seq<Arrival>, t: seq<Arrival>, bound: int)
    requires AscendingDests(s) && AscendingDests(t)
    requires (forall a :: a in s ==> a.dest < bound) && forall i :: 0 <= i < |t| ==> t[i].dest >= bound
    ensures AscendingDests(s + t)
  {
    assert forall i :: 0 <= i < |s| ==> s[i] in s;
  }

  lemma {:induction false} CopiesAscend(v: View, dest: nat, src: nat, n: nat, end: nat)
    requires WellFormed(v) && Separate(dest, src, n) && end <= PageNum(src + n) + 1
    ensures AscendingDests(Copies(v, dest, src, end))
    decreases end
  {
    if end > PageNum(src) {
      hide WellFormed, Separate, ShiftedAll, From, GetAddr;
      var p := end - 1;
      CopiesAscend(v, dest, src, n, p);
      PageCopiesAscend(v, dest, src, n, p);
      forall a | a in Copies(v, dest, src, p)
        ensures a.dest < dest + GetAddr(p, 0) - src
      {
        CopiesAre(v, dest, src, p, a);
        var q, r :| IsSource(v, src, p, q, r) && a == Shifted(dest, src, q, r);
        ShiftedAddress(v, dest, src, n, p, q, r);
      }
      AscendingConcat(Copies(v, dest, src, p),
                      ShiftedAll(dest, src, p, Recs(v, p)[From(v, src, p)..]), dest + GetAddr(p, 0) - src);
    }
  }

  lemma CopiesLand(v: View, dest: nat, src: nat, n: nat, end: nat, a: Arrival)
    requires WellFormed(v) && Separate(dest, src, n) && end <= PageNum(src + n) + 1 && a in Copies(v, dest, src, end)
    ensures PageNum(dest) <= a.Page() <= LastDestPage(dest, src, n)
    ensures !(PageNum(src) <= a.Page() <= PageNum(src + n))
  {
    CopiesAre(v, dest, src, end, a);
    var p, r :| IsSource(v, src, end, p, r) && a == Shifted(dest, src, p, r);
    ShiftedAddress(v, dest, src, n, end, p, r);
    assert GetAddr(end, 0) <= SourceEnd(src, n);
  }

  // ---- Page by page ----------------------------------------------------------------------------

  lemma ShiftedNone(dest: nat, src: nat, p: nat)
    ensures ShiftedAll(dest, src, p, []) == []
  {
  }

  lemma SourceUntouched(v: View, dest: nat, src: nat, n: nat, p: nat)
    requires WellFormed(v) && Separate(dest, src, n) && PageNum(src) <= p <= PageNum(src + n)
    ensures p in After(v, dest, src, p) <==> p in v
    ensures Recs(After(v, dest, src, p), p) == Recs(v, p)
  {
    var base := if p <= PageNum(src) then v else Truncated(v, src);
    forall a | a in Copies(v, dest, src, p)
      ensures a.Page() != p
    {
      CopiesLand(v, dest, src, n, p, a);
    }
    InsertAllElsewhere(base, Copies(v, dest, src, p), p);
  }

  lemma AfterPage(v: View, dest: nat, src: nat, n: nat, p: nat)
    requires WellFormed(v) && Separate(dest, src, n) && PageNum(src) <= p <= PageNum(src + n)
    ensures var w := After(v, dest, src, p);
      After(v, dest, src, p + 1)
        == if p in v then InsertAll(w[p := Kept(v, src, p)], ShiftedAll(dest, src, p, Recs(v, p)[From(v, src, p)..]))
           else w
  {
    hide WellFormed, Separate, ShiftedAll;
    var w := After(v, dest, src, p);
    var last := ShiftedAll(dest, src, p, Recs(v, p)[From(v, src, p)..]);
    CopiesStep(v, dest, src, p + 1);
    if p !in v { ShiftedNone(dest, src, p); }
    SourceUntouched(v, dest, src, n, p);
    if p == PageNum(src) {
      NoSourcePages(v, dest, src, p, Arrival(0, 0, 0, 0));
      assert [] + last == last;
    } else {
      InsertAllInTwo(Truncated(v, src), Copies(v, dest, src, p), last);
      assert p in w ==> w[p := w[p]] == w;
    }
  }

  lemma BeforeAll(v: View, dest: nat, src: nat, n: nat)
    ensures After(v, dest, src, PageNum(src)) == v
    ensures After(v, dest, src, PageNum(src + n) + 1) == MemcpyTraced(v, dest, src, n)
  {
  }

  // ---- The outcome -----------------------------------------------------------------------------

  lemma {:induction false} OnPageMembers(arrivals: seq<Arrival>, page: nat, r: MemRec)
    ensures r in OnPage(arrivals, page) <==> exists a :: a in arrivals && a.Page() == page && a.Rec() == r
  {
    if arrivals != [] {
      var n := |arrivals| - 1;
      OnPageMembers(arrivals[..n], page, r);
      assert arrivals == arrivals[..n] + [arrivals[n]];
      assert arrivals[n] in arrivals;
      assert forall a :: a in arrivals <==> a in arrivals[..n] || a == arrivals[n];
    }
  }

  lemma TruncatedWellFormed(v: View, src: nat)
    requires WellFormed(v)
    ensures WellFormed(Truncated(v, src))
  {
    var p := PageNum(src);
    if p in v { assert Ascending(v[p]) && InPage(v[p]); }
  }

  lemma AscendingOnPage(arrivals: seq<Arrival>, page: nat)
    requires AscendingDests(arrivals)
    ensures Ascending(OnPage(arrivals, page))
  {
    hide *;
    NothingTraced();
    InsertAllKeepsWellFormed(map[], arrivals);
    AscendingRunAppends(map[], arrivals, page);
    RecsAscend(InsertAll(map[], arrivals), page);
    SurvivorsOfNone(OnPage(arrivals, page));
    EmptyViewRecs(page);
    assert [] + OnPage(arrivals, page) == OnPage(arrivals, page);
  }

  lemma NothingTraced()
    ensures WellFormed(map[])
  {
  }

  lemma EmptyViewRecs(page: nat)
    ensures Recs(map[], page) == []
  {
  }

  lemma SurvivorsOfNone(s: seq<MemRec>)
    ensures s != [] ==> Survivors([], s[0]) == []
  {
  }

  /** A record that lands on page q. */
  ghost predicate Lands(v: View, dest: nat, src: nat, end: nat, q: nat, x: MemRec) {
    exists p, r :: IsSource(v, src, end, p, r)
                   && Shifted(dest, src, p, r).Page() == q && Shifted(dest, src, p, r).Rec() == x
  }

  lemma LandedAre(v: View, dest: nat, src: nat, end: nat, q: nat, x: MemRec)
    requires WellFormed(v)
    ensures x in OnPage(Copies(v, dest, src, end), q) <==> Lands(v, dest, src, end, q, x)
  {
    hide IsSource, Copies, WellFormed;
    var arrivals := Copies(v, dest, src, end);
    OnPageMembers(arrivals, q, x);
    if x in OnPage(arrivals, q) {
      var a :| a in arrivals && a.Page() == q && a.Rec() == x;
      CopiesAre(v, dest, src, end, a);
    }
    if p, r :| IsSource(v, src, end, p, r)
               && Shifted(dest, src, p, r).Page() == q && Shifted(dest, src, p, r).Rec() == x {
      var a := Shifted(dest, src, p, r);
      CopiesAre(v, dest, src, end, a);
      assert a in arrivals && a.Page() == q && a.Rec() == x;
    }
  }

  /** The records that a traced copy puts on page q. */
  function Landed(v: View, dest: nat, src: nat, n: nat, q: nat): seq<MemRec> {
    OnPage(Copies(v, dest, src, PageNum(src + n) + 1), q)
  }

  /** They are the shifted records whose new address is on page q, in ascending order; only
      destination pages get any. */
  lemma LandedExactly(v: View, dest: nat, src: nat, n: nat, q: nat)
    requires WellFormed(v) && Separate(dest, src, n)
    ensures forall x :: x in Landed(v, dest, src, n, q) <==> Lands(v, dest, src, PageNum(src + n) + 1, q, x)
    ensures Ascending(Landed(v, dest, src, n, q))
    ensures Landed(v, dest, src, n, q) != [] ==>
      PageNum(dest) <= q <= LastDestPage(dest, src, n) && !(PageNum(src) <= q <= PageNum(src + n))
  {
    var end := PageNum(src + n) + 1;
    var arrivals := Copies(v, dest, src, end);
    var landed := Landed(v, dest, src, n, q);
    hide Copies, Lands, WellFormed, Separate;
    forall x
      ensures x in Landed(v, dest, src, n, q) <==> Lands(v, dest, src, end, q, x)
    {
      LandedAre(v, dest, src, end, q, x);
    }
    CopiesAscend(v, dest, src, n, end);
    AscendingOnPage(arrivals, q);
    if landed != [] {
      OnPageMembers(arrivals, q, landed[0]);
      var a :| a in arrivals && a.Page() == q && a.Rec() == landed[0];
      CopiesLand(v, dest, src, n, end, a);
    }
  }

  /** Every page after a traced copy. The first source page keeps the records before src; all other
      pages outside the destination keep everything; a destination page that is copied to keeps
      what its first new record lets survive, and behind that has the records that land there. */
  lemma TracedCopy(v: View, dest: nat, src: nat, n: nat, q: nat)
    requires WellFormed(v) && Separate(dest, src, n)
    ensures WellFormed(MemcpyTraced(v, dest, src, n))
    ensures var landed := Landed(v, dest, src, n, q);
      Recs(MemcpyTraced(v, dest, src, n), q)
        == if q == PageNum(src) then Recs(v, q)[..FirstAtLeast(Recs(v, q), PageOffset(src))]
           else if landed == [] then Recs(v, q)
           else Survivors(Recs(v, q), landed[0]) + landed
  {
    hide Copies, WellFormed, Separate, FirstAtLeast, Survivors;
    var arrivals := Copies(v, dest, src, PageNum(src + n) + 1);
    LandedExactly(v, dest, src, n, q);
    TruncatedWellFormed(v, src);
    InsertAllKeepsWellFormed(Truncated(v, src), arrivals);
    CopiesAscend(v, dest, src, n, PageNum(src + n) + 1);
    AscendingRunAppends(Truncated(v, src), arrivals, q);
  }
}
