/** What a write counts and what it does not find, told from the records, the pages and the hits alone:
    no scan, no order of steps. */
module WriteExact {
  import opened Addr
  import opened Bst
  import opened MatchSpec
  import opened TraceSpec

  // ---- The description ---------------------------------------------------------------------------

  /** No hit in front of x reaches beyond it. */
  ghost predicate NotPassed(hits: seq<Hit>, x: nat) {
    forall i :: 0 <= i < |hits| && hits[i].at < x ==> hits[i].at + hits[i].len <= x
  }

  ghost predicate HitAt(hits: seq<Hit>, x: nat) {
    exists i :: 0 <= i < |hits| && hits[i].at == x
  }

  /** A usable record in the buffer is compared exactly when no hit in front of its page reaches into the
      page, and no hit in front of it reaches beyond it. */
  ghost predicate Settled(hits: seq<Hit>, page: nat, at: nat) {
    HitAt(hits, at) <==> NotPassed(hits, GetAddr(page, 0)) && NotPassed(hits, at)
  }

  predicate InBuffer(e: Env, buf: nat, tail: nat, page: nat, r: MemRec) {
    FileAddress(e, r).Some? && buf <= GetAddr(page, r.pageOffset) <= tail
  }

  /** h is the comparison of a usable record up to the tail. */
  ghost predicate IsHit(e: Env, v: View, buf: nat, tail: nat, h: Hit) {
    && buf <= h.at <= tail && h.len == PrefixLen(e, h.at, h.from, tail - h.at)
    && exists r :: r in Recs(v, PageNum(h.at)) && r.pageOffset == PageOffset(h.at) && FileAddress(e, r) == Some(h.from)
  }

  ghost predicate HitsAscend(hits: seq<Hit>) {
    forall i, j :: 0 <= i < j < |hits| ==> hits[i].at < hits[j].at
  }

  ghost predicate Exact(e: Env, v: View, buf: nat, tail: nat, hits: seq<Hit>) {
    && HitsAscend(hits)
    && (forall i :: 0 <= i < |hits| ==> IsHit(e, v, buf, tail, hits[i]))
    && forall p, r :: r in Recs(v, p) && InBuffer(e, buf, tail, p, r) ==> Settled(hits, p, GetAddr(p, r.pageOffset))
  }

  // ---- More hits behind x change nothing in front of it ---------------------------------------------

  ghost predicate Extends(hits: seq<Hit>, more: seq<Hit>, x: nat) {
    |hits| <= |more| && more[..|hits|] == hits && forall i :: |hits| <= i < |more| ==> more[i].at >= x
  }

  lemma ExtendsKeeps(hits: seq<Hit>, more: seq<Hit>, x: nat, y: nat)
    requires Extends(hits, more, x) && y <= x
    ensures NotPassed(more, y) <==> NotPassed(hits, y)
    ensures y < x ==> (HitAt(more, y) <==> HitAt(hits, y))
  {
    assert forall i :: 0 <= i < |hits| ==> more[i] == hits[i];
  }

  lemma ExtendsTwice(a: seq<Hit>, b: seq<Hit>, c: seq<Hit>, x: nat, y: nat)
    requires Extends(a, b, x) && Extends(b, c, y) && x <= y
    ensures Extends(a, c, x)
  {
    assert forall i :: 0 <= i < |b| ==> c[i] == b[i];
    assert c[..|a|] == b[..|a|];
  }

  // ---- What the scan has settled so far ----------------------------------------------------------------

  /** diffPos is where the last hit ends, and everything in front of x is settled. */
  ghost predicate SettledBelow(e: Env, v: View, buf: nat, tail: nat, s: Scan, x: nat) {
    && Ends(s, x)
    && (forall i :: 0 <= i < |s.hits| ==> IsHit(e, v, buf, tail, s.hits[i]))
    && forall p, r :: r in Recs(v, p) && InBuffer(e, buf, tail, p, r) && GetAddr(p, r.pageOffset) < x ==>
         Settled(s.hits, p, GetAddr(p, r.pageOffset))
  }

  ghost predicate Ends(s: Scan, x: nat) {
    && HitsAscend(s.hits) && (forall i :: 0 <= i < |s.hits| ==> s.hits[i].at < x)
    && (forall i :: 0 <= i < |s.hits| ==> s.hits[i].at + s.hits[i].len <= s.diffPos)
    && (s.diffPos > 0 ==> exists i :: 0 <= i < |s.hits| && s.diffPos == s.hits[i].at + s.hits[i].len)
  }

  /** Behind all hits, not to be passed is not to be in front of diffPos. */
  lemma PassedIsDiffPos(s: Scan, x: nat, y: nat)
    requires Ends(s, x) && x <= y
    ensures NotPassed(s.hits, y) <==> s.diffPos <= y
    ensures !HitAt(s.hits, y)
  {
  }

  lemma EndsLater(s: Scan, x: nat, y: nat)
    requires Ends(s, x) && x <= y
    ensures Ends(s, y)
  {
  }

  /** One more hit. */
  lemma OneMoreHit(s: Scan, x: nat, h: Hit)
    requires Ends(s, x) && x <= h.at && s.diffPos <= h.at
    ensures var s' := Scan(h.at + h.len, s.hits + [h], s.notFound);
      Ends(s', h.at + 1) && Extends(s.hits, s'.hits, h.at) && HitAt(s'.hits, h.at)
  {
    var s' := Scan(h.at + h.len, s.hits + [h], s.notFound);
    var k := |s.hits|;
    assert s'.hits[..k] == s.hits && s'.hits[k] == h;
    assert forall i :: 0 <= i < k ==> s'.hits[i] == s.hits[i];
  }

  lemma NoMore(hits: seq<Hit>, x: nat)
    ensures Extends(hits, hits, x)
  {
  }

  /** Two records of a page at one address are one. */
  lemma OneRecordThere(v: View, p: nat, q: nat, r: MemRec, t: MemRec)
    requires WellFormed(v) && r in Recs(v, p) && t in Recs(v, q)
    requires GetAddr(p, r.pageOffset) == GetAddr(q, t.pageOffset)
    ensures p == q && r == t
  {
    assert InPage(v[p]) && InPage(v[q]) && Ascending(v[p]);
    assert p == q;
    var i :| 0 <= i < |v[p]| && v[p][i] == r;
    var j :| 0 <= j < |v[p]| && v[p][j] == t;
    assert !(i < j) && !(j < i);
  }

  /** What one record does, when everything in front of it is settled. */
  lemma StepIs(e: Env, buf: nat, tail: nat, page: nat, r: MemRec, s: Scan)
    ensures var at := GetAddr(page, r.pageOffset);
      StepRec(e, buf, tail, page, r, s) ==
        if InBuffer(e, buf, tail, page, r) && s.diffPos <= at then
          var from := FileAddress(e, r).value;
          var h := Hit(at, PrefixLen(e, at, from, tail - at), from);
          Scan(at + h.len, s.hits + [h], s.notFound)
        else s
  {
    hide FileAddress, PrefixLen;
  }

  lemma RecIsHit(e: Env, v: View, buf: nat, tail: nat, page: nat, r: MemRec)
    requires WellFormed(v) && r in Recs(v, page) && InBuffer(e, buf, tail, page, r)
    ensures FileAddress(e, r).Some?
    ensures var at, from := GetAddr(page, r.pageOffset), FileAddress(e, r).value;
      IsHit(e, v, buf, tail, Hit(at, PrefixLen(e, at, from, tail - at), from))
  {
    hide FileAddress, PrefixLen;
    assert InPage(v[page]);
    var at := GetAddr(page, r.pageOffset);
    assert PageNum(at) == page && PageOffset(at) == r.pageOffset;
  }

  /** The hits afterwards. */
  lemma StepGrows(e: Env, v: View, buf: nat, tail: nat, page: nat, r: MemRec, s: Scan)
    requires WellFormed(v) && r in Recs(v, page) && SettledBelow(e, v, buf, tail, s, GetAddr(page, r.pageOffset))
    requires NotPassed(s.hits, GetAddr(page, 0))
    ensures var s', at := StepRec(e, buf, tail, page, r, s), GetAddr(page, r.pageOffset);
      && Ends(s', at + 1) && Extends(s.hits, s'.hits, at)
      && (forall i :: 0 <= i < |s'.hits| ==> IsHit(e, v, buf, tail, s'.hits[i]))
      && (InBuffer(e, buf, tail, page, r) ==> Settled(s'.hits, page, at))
  {
    hide *;
    var s', at := StepRec(e, buf, tail, page, r, s), GetAddr(page, r.pageOffset);
    SettledBelowIs(e, v, buf, tail, s, at);
    StepIs(e, buf, tail, page, r, s);
    PassedIsDiffPos(s, at, at);
    if InBuffer(e, buf, tail, page, r) && s.diffPos <= at {
      RecIsHit(e, v, buf, tail, page, r);
      var from := FileAddress(e, r).value;
      var h := Hit(at, PrefixLen(e, at, from, tail - at), from);
      OneMoreHit(s, at, h);
      NoGreater(page, r.pageOffset);
      ExtendsKeeps(s.hits, s'.hits, at, GetAddr(page, 0));
      ExtendsKeeps(s.hits, s'.hits, at, at);
    } else {
      NoMore(s.hits, at);
      EndsLater(s, at, at + 1);
    }
    SettledIs(s'.hits, page, at);
  }

  lemma NoGreater(page: nat, offset: nat)
    ensures GetAddr(page, 0) <= GetAddr(page, offset)
  {
  }

  lemma SettledIs(hits: seq<Hit>, page: nat, at: nat)
    ensures Settled(hits, page, at)
       <==> (HitAt(hits, at) <==> NotPassed(hits, GetAddr(page, 0)) && NotPassed(hits, at))
  {
  }

  lemma SettledBelowIs(e: Env, v: View, buf: nat, tail: nat, s: Scan, x: nat)
    ensures SettledBelow(e, v, buf, tail, s, x)
       <==> && Ends(s, x)
            && (forall i :: 0 <= i < |s.hits| ==> IsHit(e, v, buf, tail, s.hits[i]))
            && forall p, r :: r in Recs(v, p) && InBuffer(e, buf, tail, p, r) && GetAddr(p, r.pageOffset) < x ==>
                 Settled(s.hits, p, GetAddr(p, r.pageOffset))
  {
  }

  /** What is settled stays settled when hits are added behind. */
  lemma StaysSettled(hits: seq<Hit>, more: seq<Hit>, x: nat, page: nat, at: nat)
    requires Extends(hits, more, x) && at < x && GetAddr(page, 0) <= at && Settled(hits, page, at)
    ensures Settled(more, page, at)
  {
    ExtendsKeeps(hits, more, x, at);
    ExtendsKeeps(hits, more, x, GetAddr(page, 0));
    hide NotPassed, HitAt, Extends;
  }

  lemma RecSettled(e: Env, v: View, buf: nat, tail: nat, page: nat, r: MemRec, s: Scan)
    requires WellFormed(v) && r in Recs(v, page) && SettledBelow(e, v, buf, tail, s, GetAddr(page, r.pageOffset))
    requires NotPassed(s.hits, GetAddr(page, 0))
    ensures var s', at := StepRec(e, buf, tail, page, r, s), GetAddr(page, r.pageOffset);
      SettledBelow(e, v, buf, tail, s', at + 1) && Extends(s.hits, s'.hits, at) && NotPassed(s'.hits, GetAddr(page, 0))
  {
    hide *;
    var s', at := StepRec(e, buf, tail, page, r, s), GetAddr(page, r.pageOffset);
    StepGrows(e, v, buf, tail, page, r, s);
    SettledBelowIs(e, v, buf, tail, s, at);
    forall p, t | t in Recs(v, p) && InBuffer(e, buf, tail, p, t) && GetAddr(p, t.pageOffset) < at + 1
      ensures Settled(s'.hits, p, GetAddr(p, t.pageOffset))
    {
      if GetAddr(p, t.pageOffset) < at {
        NoGreater(p, t.pageOffset);
        StaysSettled(s.hits, s'.hits, at, p, GetAddr(p, t.pageOffset));
      } else {
        OneRecordThere(v, p, page, t, r);
      }
    }
    SettledBelowIs(e, v, buf, tail, s', at + 1);
    NoGreater(page, r.pageOffset);
    ExtendsKeeps(s.hits, s'.hits, at, GetAddr(page, 0));
  }

  /** Where no record is, the bound moves on. */
  lemma Widen(e: Env, v: View, buf: nat, tail: nat, s: Scan, x: nat, y: nat)
    requires SettledBelow(e, v, buf, tail, s, x) && x <= y
    requires forall p, r :: r in Recs(v, p) && GetAddr(p, r.pageOffset) < y ==> GetAddr(p, r.pageOffset) < x
    ensures SettledBelow(e, v, buf, tail, s, y)
  {
    EndsLater(s, x, y);
    hide Ends, Settled, IsHit, InBuffer, GetAddr;
  }

  // ---- One page ------------------------------------------------------------------------------------------

  /** Everything in front of record k of the page is settled. */
  function Bound(page: nat, recs: seq<MemRec>, k: nat): nat
    requires k <= |recs|
  {
    if k == 0 then GetAddr(page, 0) else GetAddr(page, recs[k - 1].pageOffset) + 1
  }

  /** Between the records of a page there are none. */
  lemma NoneBetween(v: View, page: nat, k: nat)
    requires WellFormed(v) && page in v && k <= |v[page]|
    ensures var y := if k < |v[page]| then GetAddr(page, v[page][k].pageOffset) else GetAddr(page + 1, 0);
      && Bound(page, v[page], k) <= y
      && forall p, r :: r in Recs(v, p) && GetAddr(p, r.pageOffset) < y ==>
           GetAddr(p, r.pageOffset) < Bound(page, v[page], k)
  {
    var recs := v[page];
    assert Ascending(recs) && InPage(recs);
    var y := if k < |recs| then GetAddr(page, recs[k].pageOffset) else GetAddr(page + 1, 0);
    forall p, r | r in Recs(v, p) && GetAddr(p, r.pageOffset) < y
      ensures GetAddr(p, r.pageOffset) < Bound(page, recs, k)
    {
      assert InPage(v[p]);
      if p == page {
        var i :| 0 <= i < |recs| && recs[i] == r;
        assert k < |recs| ==> !(k < i);
        assert i < k;
        assert i < k - 1 ==> recs[i].pageOffset < recs[k - 1].pageOffset;
      }
    }
  }

  lemma {:induction false} PageSettled(e: Env, v: View, buf: nat, tail: nat, page: nat, k: nat, s: Scan)
    requires WellFormed(v) && page in v && k <= |v[page]| && NotPassed(s.hits, GetAddr(page, 0))
    requires SettledBelow(e, v, buf, tail, s, Bound(page, v[page], k))
    ensures var s' := ScanPage(e, buf, tail, page, v[page], k, s);
      SettledBelow(e, v, buf, tail, s', GetAddr(page + 1, 0)) && Extends(s.hits, s'.hits, GetAddr(page, 0))
    decreases |v[page]| - k
  {
    hide *;
    NoneBetween(v, page, k);
    var recs := v[page];
    if k < |recs| {
      var at := GetAddr(page, recs[k].pageOffset);
      Widen(e, v, buf, tail, s, Bound(page, recs, k), at);
      IsRec(v, page, k);
      RecSettled(e, v, buf, tail, page, recs[k], s);
      ScanStep(e, buf, tail, page, recs, k, s);
      BoundIs(page, recs, k + 1);
      var s1 := StepRec(e, buf, tail, page, recs[k], s);
      PageSettled(e, v, buf, tail, page, k + 1, s1);
      NoGreater(page, recs[k].pageOffset);
      FromFurther(s.hits, s1.hits, GetAddr(page, 0), at);
      var s2 := ScanPage(e, buf, tail, page, recs, k + 1, s1);
      ExtendsTwice(s.hits, s1.hits, s2.hits, GetAddr(page, 0), GetAddr(page, 0));
    } else {
      Widen(e, v, buf, tail, s, Bound(page, recs, k), GetAddr(page + 1, 0));
      ScanEnd(e, buf, tail, page, recs, s);
      NoMore(s.hits, GetAddr(page, 0));
    }
  }

  lemma IsRec(v: View, page: nat, k: nat)
    requires page in v && k < |v[page]|
    ensures v[page][k] in Recs(v, page)
  {
  }

  lemma BoundIs(page: nat, recs: seq<MemRec>, k: nat)
    requires 0 < k <= |recs|
    ensures Bound(page, recs, k) == GetAddr(page, recs[k - 1].pageOffset) + 1
  {
  }

  lemma FromFurther(hits: seq<Hit>, more: seq<Hit>, x: nat, y: nat)
    requires Extends(hits, more, y) && x <= y
    ensures Extends(hits, more, x)
  {
  }

  /** A page that starts in front of diffPos: none of its records is compared. */
  lemma SkippedSettled(e: Env, v: View, buf: nat, tail: nat, page: nat, s: Scan)
    requires WellFormed(v) && SettledBelow(e, v, buf, tail, s, GetAddr(page, 0)) && GetAddr(page, 0) < s.diffPos
    ensures SettledBelow(e, v, buf, tail, s, GetAddr(page + 1, 0))
  {
    PassedIsDiffPos(s, GetAddr(page, 0), GetAddr(page, 0));
    EndsLater(s, GetAddr(page, 0), GetAddr(page + 1, 0));
    forall p, r | r in Recs(v, p) && InBuffer(e, buf, tail, p, r) && GetAddr(p, r.pageOffset) < GetAddr(page + 1, 0)
      ensures Settled(s.hits, p, GetAddr(p, r.pageOffset))
    {
      assert InPage(v[p]);
      if p == page {
        PassedIsDiffPos(s, GetAddr(page, 0), GetAddr(p, r.pageOffset));
      }
    }
    hide Ends, NotPassed, HitAt, IsHit;
  }

  /** A page that is not traced. */
  lemma UntracedSettled(e: Env, v: View, buf: nat, tail: nat, page: nat, s: Scan, s': Scan)
    requires WellFormed(v) && page !in v && SettledBelow(e, v, buf, tail, s, GetAddr(page, 0))
    requires s'.hits == s.hits && s'.diffPos == s.diffPos
    ensures SettledBelow(e, v, buf, tail, s', GetAddr(page + 1, 0))
  {
    forall p, r | r in Recs(v, p) && GetAddr(p, r.pageOffset) < GetAddr(page + 1, 0)
      ensures GetAddr(p, r.pageOffset) < GetAddr(page, 0)
    {
      assert InPage(v[p]);
    }
    Widen(e, v, buf, tail, s, GetAddr(page, 0), GetAddr(page + 1, 0));
    hide Settled, IsHit, HitsAscend;
  }

  lemma BoundAtStart(page: nat, recs: seq<MemRec>)
    ensures Bound(page, recs, 0) == GetAddr(page, 0)
  {
  }

  lemma VisitCases(e: Env, v: View, buf: nat, tail: nat, page: nat, s: Scan)
    ensures VisitPage(e, v, buf, tail, page, s) ==
      if GetAddr(page, 0) < s.diffPos then s
      else if page in v then ScanPage(e, buf, tail, page, v[page], 0, s)
      else s.(notFound := s.notFound + NotFoundLen(tail, page))
  {
  }

  lemma VisitSettled(e: Env, v: View, buf: nat, tail: nat, page: nat, s: Scan)
    requires WellFormed(v) && SettledBelow(e, v, buf, tail, s, GetAddr(page, 0))
    ensures var s' := VisitPage(e, v, buf, tail, page, s);
      SettledBelow(e, v, buf, tail, s', GetAddr(page + 1, 0)) && Extends(s.hits, s'.hits, GetAddr(page, 0))
  {
    hide *;
    var s' := VisitPage(e, v, buf, tail, page, s);
    VisitCases(e, v, buf, tail, page, s);
    SettledBelowIs(e, v, buf, tail, s, GetAddr(page, 0));
    PassedIsDiffPos(s, GetAddr(page, 0), GetAddr(page, 0));
    NoMore(s.hits, GetAddr(page, 0));
    if GetAddr(page, 0) < s.diffPos {
      SkippedSettled(e, v, buf, tail, page, s);
    } else if page in v {
      BoundAtStart(page, v[page]);
      PageSettled(e, v, buf, tail, page, 0, s);
    } else {
      UntracedSettled(e, v, buf, tail, page, s, s');
    }
  }

  // ---- What is not found --------------------------------------------------------------------------------

  /** Over the pages from `page` to the tail's: for every untraced one that no hit in front of it reaches
      into, the bytes up to the tail, at most a page. */
  ghost function Missed(v: View, hits: seq<Hit>, tail: nat, page: nat): int
    decreases PageNum(tail) + 1 - page
  {
    if page > PageNum(tail) then 0
    else
      (if page !in v && NotPassed(hits, GetAddr(page, 0))
       then (if tail - GetAddr(page, 0) < 4096 then tail - GetAddr(page, 0) else 4096) else 0)
      + Missed(v, hits, tail, page + 1)
  }

  /** The same, with the bytes up to the tail in an int, where 2^31 bytes and more become negative. */
  ghost function MissedInt(v: View, hits: seq<Hit>, tail: nat, page: nat): int
    decreases PageNum(tail) + 1 - page
  {
    if page > PageNum(tail) then 0
    else
      (if page !in v && NotPassed(hits, GetAddr(page, 0)) then OnePage(tail, page) else 0)
      + MissedInt(v, hits, tail, page + 1)
  }

  function OnePage(tail: nat, page: nat): int {
    var low := (tail - GetAddr(page, 0)) % 0x1_0000_0000;
    var rest := if low < 0x8000_0000 then low else low - 0x1_0000_0000;
    if rest < 4096 then rest else 4096
  }

  lemma {:induction false} MissedIntIs(v: View, hits: seq<Hit>, tail: nat, page: nat)
    requires tail - GetAddr(page, 0) < 0x8000_0000
    ensures MissedInt(v, hits, tail, page) == Missed(v, hits, tail, page)
    decreases PageNum(tail) + 1 - page
  {
    hide NotPassed;
    if page <= PageNum(tail) { MissedIntIs(v, hits, tail, page + 1); }
  }

  lemma VisitBooks(e: Env, v: View, buf: nat, tail: nat, page: nat, s: Scan)
    ensures VisitPage(e, v, buf, tail, page, s).notFound - s.notFound
         == if page !in v && s.diffPos <= GetAddr(page, 0) then OnePage(tail, page) else 0
  {
    if page in v { ScanBooksNothing(e, buf, tail, page, v[page], 0, s); }
  }

  lemma {:induction false} ScanBooksNothing(e: Env, buf: nat, tail: nat, page: nat, recs: seq<MemRec>, k: nat, s: Scan)
    requires k <= |recs|
    ensures ScanPage(e, buf, tail, page, recs, k, s).notFound == s.notFound
    decreases |recs| - k
  {
    if k < |recs| {
      ScanBooksNothing(e, buf, tail, page, recs, k + 1, StepRec(e, buf, tail, page, recs[k], s));
    }
  }

  lemma MissedStep(v: View, hits: seq<Hit>, tail: nat, page: nat)
    ensures MissedInt(v, hits, tail, page) ==
      if page > PageNum(tail) then 0
      else
        (if page !in v && NotPassed(hits, GetAddr(page, 0)) then OnePage(tail, page) else 0)
        + MissedInt(v, hits, tail, page + 1)
  {
  }

  // ---- All pages --------------------------------------------------------------------------------------------

  lemma PagesStep(e: Env, v: View, buf: nat, tail: nat, page: nat, s: Scan)
    ensures ScanPages(e, v, buf, tail, page, s) ==
      if page > PageNum(tail) then s
      else ScanPages(e, v, buf, tail, page + 1, VisitPage(e, v, buf, tail, page, s))
  {
  }

  lemma LaterStarts(tail: nat, page: nat)
    ensures GetAddr(page, 0) <= GetAddr(page + 1, 0)
    ensures page > PageNum(tail) ==> GetAddr(page, 0) > tail
  {
  }

  lemma {:induction false} PagesSettled(e: Env, v: View, buf: nat, tail: nat, page: nat, s: Scan)
    requires WellFormed(v) && SettledBelow(e, v, buf, tail, s, GetAddr(page, 0))
    ensures var s' := ScanPages(e, v, buf, tail, page, s);
      && SettledBelow(e, v, buf, tail, s', GetAddr(if page <= PageNum(tail) then PageNum(tail) + 1 else page, 0))
      && Extends(s.hits, s'.hits, GetAddr(page, 0))
      && s'.notFound == s.notFound + MissedInt(v, s'.hits, tail, page)
    decreases PageNum(tail) + 1 - page
  {
    hide *;
    PagesStep(e, v, buf, tail, page, s);
    var s' := ScanPages(e, v, buf, tail, page, s);
    MissedStep(v, s'.hits, tail, page);
    if page <= PageNum(tail) {
      var s1 := VisitPage(e, v, buf, tail, page, s);
      VisitSettled(e, v, buf, tail, page, s);
      PagesSettled(e, v, buf, tail, page + 1, s1);
      LaterStarts(tail, page);
      ExtendsTwice(s.hits, s1.hits, s'.hits, GetAddr(page, 0), GetAddr(page + 1, 0));
      ExtendsKeeps(s.hits, s'.hits, GetAddr(page, 0), GetAddr(page, 0));
      SettledBelowIs(e, v, buf, tail, s, GetAddr(page, 0));
      PassedIsDiffPos(s, GetAddr(page, 0), GetAddr(page, 0));
      VisitBooks(e, v, buf, tail, page, s);
    } else {
      NoMore(s.hits, GetAddr(page, 0));
    }
  }

  lemma NothingYet(e: Env, v: View, buf: nat, tail: nat)
    requires WellFormed(v)
    ensures SettledBelow(e, v, buf, tail, Scan(0, [], 0), GetAddr(PageNum(buf), 0))
  {
  }

  lemma WriteIs(e: Env, v: View, buf: nat, length: nat)
    ensures Fwrite(e, v, buf, length) == ScanPages(e, v, buf, buf + length, PageNum(buf), Scan(0, [], 0))
    ensures PageNum(buf) <= PageNum(buf + length) && GetAddr(PageNum(buf + length) + 1, 0) > buf + length
  {
  }

  lemma AllSettled(e: Env, v: View, buf: nat, tail: nat, s: Scan, x: nat)
    requires SettledBelow(e, v, buf, tail, s, x) && x > tail
    ensures Exact(e, v, buf, tail, s.hits)
  {
    hide Settled, IsHit, FileAddress;
  }

  /** The hits of a write are exactly described. */
  lemma WriteSettled(e: Env, v: View, buf: nat, length: nat)
    requires WellFormed(v)
    ensures Exact(e, v, buf, buf + length, Fwrite(e, v, buf, length).hits)
    ensures Fwrite(e, v, buf, length).notFound
         == MissedInt(v, Fwrite(e, v, buf, length).hits, buf + length, PageNum(buf))
  {
    hide *;
    var tail := buf + length;
    NothingYet(e, v, buf, tail);
    WriteIs(e, v, buf, length);
    PagesSettled(e, v, buf, tail, PageNum(buf), Scan(0, [], 0));
    AllSettled(e, v, buf, tail, Fwrite(e, v, buf, length), GetAddr(PageNum(tail) + 1, 0));
  }

  // ---- The description has one solution ---------------------------------------------------------------------

  lemma SameBefore(hs: seq<Hit>, ks: seq<Hit>, k: nat, x: nat)
    requires HitsAscend(hs) && HitsAscend(ks) && k < |hs| && k <= |ks| && hs[..k] == ks[..k]
    requires x == hs[k].at && (k < |ks| ==> x <= ks[k].at)
    ensures forall y: nat :: y <= x ==> (NotPassed(hs, y) <==> NotPassed(ks, y))
    ensures k == |ks| || x < ks[k].at ==> !HitAt(ks, x)
  {
    assert forall i :: 0 <= i < k ==> hs[i] == ks[i];
    assert forall i :: k < i < |ks| ==> ks[k].at < ks[i].at;
    assert forall i :: k < i < |hs| ==> hs[k].at < hs[i].at;
    assert Extends(hs[..k], hs, x) && Extends(ks[..k], ks, x);
    forall y: nat | y <= x
      ensures NotPassed(hs, y) <==> NotPassed(ks, y)
    {
      ExtendsKeeps(hs[..k], hs, x, y);
      ExtendsKeeps(ks[..k], ks, x, y);
    }
    assert forall i :: 0 <= i < k ==> hs[i].at < x;
  }

  lemma HitOfRecord(e: Env, v: View, buf: nat, tail: nat, h: Hit) returns (r: MemRec)
    requires IsHit(e, v, buf, tail, h)
    ensures r in Recs(v, PageNum(h.at)) && FileAddress(e, r) == Some(h.from)
    ensures GetAddr(PageNum(h.at), r.pageOffset) == h.at && InBuffer(e, buf, tail, PageNum(h.at), r)
    ensures buf <= h.at <= tail && h.len == PrefixLen(e, h.at, h.from, tail - h.at)
  {
    hide FileAddress, PrefixLen;
    r :| r in Recs(v, PageNum(h.at)) && r.pageOffset == PageOffset(h.at) && FileAddress(e, r) == Some(h.from);
  }

  lemma ExactIs(e: Env, v: View, buf: nat, tail: nat, hits: seq<Hit>)
    ensures Exact(e, v, buf, tail, hits)
       <==> && HitsAscend(hits)
            && (forall i :: 0 <= i < |hits| ==> IsHit(e, v, buf, tail, hits[i]))
            && forall p, r :: r in Recs(v, p) && InBuffer(e, buf, tail, p, r) ==>
                 Settled(hits, p, GetAddr(p, r.pageOffset))
  {
  }

  /** The next hit of one is not in front of the next hit of the other. */
  lemma NotInFront(e: Env, v: View, buf: nat, tail: nat, hs: seq<Hit>, ks: seq<Hit>, k: nat)
    requires WellFormed(v) && Exact(e, v, buf, tail, hs) && Exact(e, v, buf, tail, ks)
    requires k < |hs| && k <= |ks| && hs[..k] == ks[..k]
    ensures k < |ks| && ks[k].at <= hs[k].at
  {
    hide *;
    ExactIs(e, v, buf, tail, hs);
    ExactIs(e, v, buf, tail, ks);
    if k == |ks| || hs[k].at < ks[k].at {
      var x := hs[k].at;
      var r := HitOfRecord(e, v, buf, tail, hs[k]);
      SettledIs(hs, PageNum(x), x);
      SettledIs(ks, PageNum(x), x);
      IsHitAt(hs, k);
      NoGreater(PageNum(x), r.pageOffset);
      SameBefore(hs, ks, k, x);
      assert false;
    }
  }

  lemma IsHitAt(hits: seq<Hit>, k: nat)
    requires k < |hits|
    ensures HitAt(hits, hits[k].at)
  {
  }

  lemma SameHit(e: Env, v: View, buf: nat, tail: nat, h: Hit, k: Hit)
    requires WellFormed(v) && IsHit(e, v, buf, tail, h) && IsHit(e, v, buf, tail, k) && h.at == k.at
    ensures h == k
  {
    hide *;
    var r := HitOfRecord(e, v, buf, tail, h);
    var t := HitOfRecord(e, v, buf, tail, k);
    OneRecordThere(v, PageNum(h.at), PageNum(k.at), r, t);
  }

  lemma {:induction false} OneSolution(e: Env, v: View, buf: nat, tail: nat, hs: seq<Hit>, ks: seq<Hit>, k: nat)
    requires WellFormed(v) && Exact(e, v, buf, tail, hs) && Exact(e, v, buf, tail, ks)
    requires k <= |hs| && k <= |ks| && hs[..k] == ks[..k]
    ensures hs == ks
    decreases |hs| - k
  {
    hide *;
    if k < |hs| {
      NotInFront(e, v, buf, tail, hs, ks, k);
      NotInFront(e, v, buf, tail, ks, hs, k);
      ExactIs(e, v, buf, tail, hs);
      ExactIs(e, v, buf, tail, ks);
      SameHit(e, v, buf, tail, hs[k], ks[k]);
      assert hs[..k + 1] == hs[..k] + [hs[k]] && ks[..k + 1] == ks[..k] + [ks[k]];
      OneSolution(e, v, buf, tail, hs, ks, k + 1);
    } else {
      if k < |ks| { NotInFront(e, v, buf, tail, ks, hs, k); }
      assert hs == hs[..k] && ks == ks[..k];
    }
  }

  /** Main result on what a write compares, for every trace a run can leave: its hits are the one sequence,
      ascending, of comparisons of usable records up to the tail, in which a usable record of the buffer is
      compared if and only if no hit in front of it reaches beyond it and none in front of its page reaches
      into the page. */
  lemma WriteExactly(e: Env, v: View, buf: nat, length: nat, hits: seq<Hit>)
    requires WellFormed(v)
    ensures hits == Fwrite(e, v, buf, length).hits <==> Exact(e, v, buf, buf + length, hits)
  {
    hide *;
    WriteSettled(e, v, buf, length);
    if Exact(e, v, buf, buf + length, hits) {
      var fs := Fwrite(e, v, buf, length).hits;
      assert fs[..0] == hits[..0];
      OneSolution(e, v, buf, buf + length, fs, hits, 0);
    }
  }

  /** What a write of any length does not find. */
  lemma NotFoundInInt(e: Env, v: View, buf: nat, length: nat)
    requires WellFormed(v)
    ensures Fwrite(e, v, buf, length).notFound
         == MissedInt(v, Fwrite(e, v, buf, length).hits, buf + length, PageNum(buf))
  {
    WriteSettled(e, v, buf, length);
  }

  /** What a write below 2^31 bytes does not find: over the untraced pages of the range that no hit in front
      of them reaches into, the bytes up to the tail, at most a page each. */
  lemma NotFoundExactly(e: Env, v: View, buf: nat, length: nat)
    requires WellFormed(v) && length + PageOffset(buf) < 0x8000_0000
    ensures Fwrite(e, v, buf, length).notFound == Missed(v, Fwrite(e, v, buf, length).hits, buf + length, PageNum(buf))
  {
    hide *;
    OffsetIs(buf);
    WriteSettled(e, v, buf, length);
    MissedIntIs(v, Fwrite(e, v, buf, length).hits, buf + length, PageNum(buf));
  }

  lemma OffsetIs(buf: nat)
    ensures buf - GetAddr(PageNum(buf), 0) == PageOffset(buf)
  {
  }

  // ---- Records of no use -------------------------------------------------------------------------------------

  /** The records that lead to a mapped file, in order. */
  function Usable(e: Env, s: seq<MemRec>): seq<MemRec> {
    if s == [] then []
    else (if FileAddress(e, s[0]).Some? then [s[0]] else []) + Usable(e, s[1..])
  }

  /** The trace without the others; the pages stay traced. */
  function Dropped(e: Env, v: View): View {
    map p | p in v :: Usable(e, v[p])
  }

  lemma {:induction false} UsableAre(e: Env, s: seq<MemRec>, r: MemRec)
    ensures r in Usable(e, s) <==> r in s && FileAddress(e, r).Some?
  {
    hide FileAddress;
    if s != [] {
      UsableAre(e, s[1..], r);
      assert s == [s[0]] + s[1..];
    }
  }

  lemma {:induction false} UsableAscend(e: Env, s: seq<MemRec>)
    requires Ascending(s)
    ensures Ascending(Usable(e, s))
  {
    hide FileAddress;
    if s != [] {
      UsableAscend(e, s[1..]);
      var t := Usable(e, s[1..]);
      forall i | 0 <= i < |t|
        ensures s[0].pageOffset < t[i].pageOffset
      {
        UsableAre(e, s[1..], t[i]);
        assert t[i] in s[1..];
        var j :| 1 <= j < |s| && s[j] == t[i];
      }
    }
  }

  lemma DroppedPage(e: Env, v: View, p: nat, r: MemRec)
    ensures r in Recs(Dropped(e, v), p) <==> r in Recs(v, p) && FileAddress(e, r).Some?
  {
    hide FileAddress;
    UsableAre(e, Recs(v, p), r);
  }

  lemma DroppedWellFormed(e: Env, v: View)
    requires WellFormed(v)
    ensures WellFormed(Dropped(e, v))
  {
    forall p | p in v
      ensures Ascending(Usable(e, v[p])) && InPage(Usable(e, v[p]))
    {
      UsableAscend(e, v[p]);
      var t := Usable(e, v[p]);
      forall i | 0 <= i < |t|
        ensures t[i].pageOffset < PAGE_SIZE
      {
        UsableAre(e, v[p], t[i]);
        assert t[i] in v[p] && InPage(v[p]);
      }
    }
    hide Usable;
  }

  /** What is exact with all records is exact with the usable ones. */
  lemma ExactDropped(e: Env, v: View, buf: nat, tail: nat, hits: seq<Hit>)
    requires Exact(e, v, buf, tail, hits)
    ensures Exact(e, Dropped(e, v), buf, tail, hits)
  {
    hide *;
    ExactIs(e, v, buf, tail, hits);
    forall i | 0 <= i < |hits|
      ensures IsHit(e, Dropped(e, v), buf, tail, hits[i])
    {
      HitDropped(e, v, buf, tail, hits[i]);
    }
    forall p, r | r in Recs(Dropped(e, v), p) && InBuffer(e, buf, tail, p, r)
      ensures Settled(hits, p, GetAddr(p, r.pageOffset))
    {
      DroppedPage(e, v, p, r);
    }
    ExactIs(e, Dropped(e, v), buf, tail, hits);
  }

  lemma HitDropped(e: Env, v: View, buf: nat, tail: nat, h: Hit)
    requires IsHit(e, v, buf, tail, h)
    ensures IsHit(e, Dropped(e, v), buf, tail, h)
  {
    var r := HitOfRecord(e, v, buf, tail, h);
    DroppedPage(e, v, PageNum(h.at), r);
    hide Dropped, FileAddress, PrefixLen;
    assert r.pageOffset == PageOffset(h.at);
  }

  lemma {:induction false} MissedDropped(e: Env, v: View, hits: seq<Hit>, tail: nat, page: nat)
    ensures MissedInt(Dropped(e, v), hits, tail, page) == MissedInt(v, hits, tail, page)
    decreases PageNum(tail) + 1 - page
  {
    hide NotPassed, Usable, OnePage;
    if page <= PageNum(tail) { MissedDropped(e, v, hits, tail, page + 1); }
  }

  /** A record that leads nowhere plays no part: the hits, and what is not found, are those of the trace
      without it, wherever in the trace it is and whatever was compared in front of it. */
  lemma UnusablePlayNoPart(e: Env, v: View, buf: nat, length: nat)
    requires WellFormed(v)
    ensures Fwrite(e, Dropped(e, v), buf, length).hits == Fwrite(e, v, buf, length).hits
    ensures Fwrite(e, Dropped(e, v), buf, length).notFound == Fwrite(e, v, buf, length).notFound
  {
    hide *;
    var hits := Fwrite(e, v, buf, length).hits;
    WriteExactly(e, v, buf, length, hits);
    ExactDropped(e, v, buf, buf + length, hits);
    DroppedWellFormed(e, v);
    WriteExactly(e, Dropped(e, v), buf, length, hits);
    WriteSettled(e, v, buf, length);
    WriteSettled(e, Dropped(e, v), buf, length);
    MissedDropped(e, v, hits, buf + length, PageNum(buf));
  }
}
