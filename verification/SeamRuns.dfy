/** Any number of records in a buffer that is written: which are looked at, and how much they count,
    follows from one to the next. */
module SeamRuns {
  import opened Addr
  import opened Bst
  import opened MatchSpec
  import opened Seams
  import opened TraceSpec

  /** A copy of n bytes, the record made for it, and the address that leads to, if it leads anywhere. */
  datatype Copy = Copy(a: Arrival, n: nat, from: Option<nat>)

  function Arrivals(cs: seq<Copy>): seq<Arrival> {
    seq(|cs|, i requires 0 <= i < |cs| => cs[i].a)
  }

  /** The copies lie one behind the other, with or without gaps; some records may be of no use. */
  ghost predicate InRow(e: Env, cs: seq<Copy>) {
    && cs != []
    && (forall i :: 0 <= i < |cs| ==> cs[i].from == FileAddress(e, cs[i].a.Rec()))
    && (forall i, j :: 0 <= i < j < |cs| ==> cs[i].a.dest < cs[j].a.dest)
  }

  /** Whatever else the pages of the buffer have is in front of it. */
  ghost predicate OldInFront(v: View, buf: nat, tail: nat) {
    forall p, r :: PageNum(buf) <= p <= PageNum(tail) && r in Recs(v, p) ==> GetAddr(p, r.pageOffset) < buf
  }

  // ---- From copy to copy ------------------------------------------------------------------------

  /** How far the comparisons have got, whether the page at hand is scanned, and what has been counted. */
  datatype Sight = Sight(pos: nat, open: bool, count: nat)

  /** One more copy. Its page is scanned when it was before, or when it is another page that does not start
      before pos; its record is looked at when it is not below pos, and leads somewhere. */
  function Look(e: Env, tail: nat, before: nat, c: Copy, s: Sight): Sight {
    var page := c.a.Page();
    var open := if page == before then s.open else s.pos <= GetAddr(page, 0);
    if open && s.pos <= c.a.dest <= tail && c.from.Some? then
      var k := PrefixLen(e, c.a.dest, c.from.value, tail - c.a.dest);
      Sight(c.a.dest + k, open, s.count + k)
    else Sight(s.pos, open, s.count)
  }

  function Before(cs: seq<Copy>, k: nat): nat
    requires k < |cs|
  {
    cs[if k == 0 then 0 else k - 1].a.Page()
  }

  /** After the first k copies. */
  function LookAll(e: Env, tail: nat, cs: seq<Copy>, k: nat): Sight
    requires k <= |cs|
  {
    if k == 0 then Sight(0, true, 0)
    else Look(e, tail, Before(cs, k - 1), cs[k - 1], LookAll(e, tail, cs, k - 1))
  }

  // ---- The records of one page -------------------------------------------------------------------

  /** The copies from k to k' are those of the page. */
  ghost predicate OfPage(cs: seq<Copy>, page: nat, k: nat, k': nat) {
    && k <= k' <= |cs|
    && (forall i :: 0 <= i < k ==> cs[i].a.Page() < page)
    && (forall i :: k <= i < k' ==> cs[i].a.Page() == page)
    && (forall i :: k' <= i < |cs| ==> cs[i].a.Page() > page)
  }

  function Recorded(cs: seq<Copy>, k: nat, k': nat): (s: seq<MemRec>)
    requires k <= k' <= |cs|
    ensures |s| == k' - k
  {
    seq(k' - k, i requires 0 <= i < k' - k => cs[k + i].a.Rec())
  }

  lemma {:induction false} OnPageIsPart(cs: seq<Copy>, page: nat, k: nat, k': nat)
    requires OfPage(cs, page, k, k')
    ensures OnPage(Arrivals(cs), page) == Recorded(cs, k, k')
  {
    hide *;
    OfPageIs(cs, page, k, k');
    if cs == [] {
      NothingOfNone(page);
    } else {
      var n := |cs| - 1;
      var init := cs[..n];
      ArrivalsOneMore(cs);
      OnPageOneMore(Arrivals(init), cs[n].a, page);
      OfPageInit(cs, page, k, k');
      if k' == |cs| && k < k' {
        OnPageIsPart(init, page, k, n);
        RecordedOneMore(cs, k);
      } else if k' == |cs| {
        OnPageIsPart(init, page, n, n);
        RecordedInit(cs, k, k');
        assert Recorded(init, n, n) == [] == Recorded(cs, k, k');
      } else {
        OnPageIsPart(init, page, k, k');
        RecordedInit(cs, k, k');
      }
    }
  }

  lemma NothingOfNone(page: nat)
    ensures OnPage(Arrivals([]), page) == [] == Recorded([], 0, 0)
  {
  }

  lemma ArrivalsOneMore(cs: seq<Copy>)
    requires cs != []
    ensures Arrivals(cs) == Arrivals(cs[..|cs| - 1]) + [cs[|cs| - 1].a]
  {
  }

  /** The last copy is on the page, or in front of it, or behind it. */
  lemma OfPageInit(cs: seq<Copy>, page: nat, k: nat, k': nat)
    requires OfPage(cs, page, k, k') && cs != []
    ensures var n := |cs| - 1;
      && (k' == |cs| && k < k' ==> OfPage(cs[..n], page, k, n) && cs[n].a.Page() == page)
      && (k' == |cs| && k == k' ==> OfPage(cs[..n], page, n, n) && cs[n].a.Page() != page)
      && (k' < |cs| ==> OfPage(cs[..n], page, k, k') && cs[n].a.Page() != page)
  {
  }

  lemma RecordedOneMore(cs: seq<Copy>, k: nat)
    requires k < |cs|
    ensures Recorded(cs, k, |cs|) == Recorded(cs[..|cs| - 1], k, |cs| - 1) + [cs[|cs| - 1].a.Rec()]
  {
  }

  lemma RecordedInit(cs: seq<Copy>, k: nat, k': nat)
    requires k <= k' <= |cs| && cs != []
    ensures k' < |cs| ==> Recorded(cs, k, k') == Recorded(cs[..|cs| - 1], k, k')
  {
  }

  lemma DestsAscend(e: Env, cs: seq<Copy>)
    requires InRow(e, cs)
    ensures AscendingDests(Arrivals(cs))
  {
    hide FileAddress;
  }

  /** A page with copies has their records last, behind what was there before. */
  lemma RecordsOfPage(e: Env, v: View, cs: seq<Copy>, page: nat, k: nat, k': nat)
    requires InRow(e, cs) && OfPage(cs, page, k, k') && k < k'
    ensures Recs(InsertAll(v, Arrivals(cs)), page)
         == Survivors(Recs(v, page), cs[k].a.Rec()) + Recorded(cs, k, k')
  {
    hide InRow, Survivors;
    DestsAscend(e, cs);
    AscendingRunAppends(v, Arrivals(cs), page);
    OnPageIsPart(cs, page, k, k');
  }

  lemma NoRecordsOfPage(v: View, cs: seq<Copy>, page: nat, k: nat)
    requires OfPage(cs, page, k, k)
    ensures page in InsertAll(v, Arrivals(cs)) <==> page in v
    ensures Recs(InsertAll(v, Arrivals(cs)), page) == Recs(v, page)
  {
    forall a | a in Arrivals(cs)
      ensures a.Page() != page
    {
      var i :| 0 <= i < |cs| && Arrivals(cs)[i] == a;
      assert i < k || k <= i;
    }
    InsertAllElsewhere(v, Arrivals(cs), page);
  }

  // ---- The scan of one page -----------------------------------------------------------------------

  /** The scan and the sight agree. */
  predicate Agree(s: Scan, t: Sight) {
    s.diffPos == t.pos && Total(s.hits) == t.count
  }

  lemma LookedAt(e: Env, buf: nat, tail: nat, c: Copy, s: Scan, t: Sight)
    requires c.from == FileAddress(e, c.a.Rec()) && buf <= c.a.dest && Agree(s, t) && t.open
    ensures Agree(StepRec(e, buf, tail, c.a.Page(), c.a.Rec(), s), Look(e, tail, c.a.Page(), c, t))
    ensures Look(e, tail, c.a.Page(), c, t).open
  {
    if c.from.Some? && c.a.dest <= tail {
      var from := c.from.value;
      hide FileAddress, PrefixLen, StepRec;
      Compared(e, buf, tail, c.a.Page(), c.a, from, s);
      TotalOfOneMore(s.hits, Hit(c.a.dest, PrefixLen(e, c.a.dest, from, tail - c.a.dest), from));
    } else {
      assert GetAddr(c.a.Page(), c.a.Rec().pageOffset) == c.a.dest;
    }
  }

  /** The copies j..k' of a page that is scanned. */
  lemma {:induction false} PageAgrees(e: Env, buf: nat, tail: nat, cs: seq<Copy>, page: nat, k: nat, k': nat, j: nat,
                                      w: seq<MemRec>, s: Scan)
    requires InRow(e, cs) && OfPage(cs, page, k, k') && k < j <= k' && buf <= cs[0].a.dest
    requires Agree(s, LookAll(e, tail, cs, j)) && LookAll(e, tail, cs, j).open
    ensures Agree(ScanPage(e, buf, tail, page, w + Recorded(cs, k, k'), |w| + (j - k), s), LookAll(e, tail, cs, k'))
    decreases k' - j
  {
    hide *;
    OfPageIs(cs, page, k, k');
    var recs := w + Recorded(cs, k, k');
    assert |recs| == |w| + (k' - k);
    if j < k' {
      InsidePage(cs, page, k, k', j, w);
      InBuffer(e, cs, j);
      LookedAt(e, buf, tail, cs[j], s, LookAll(e, tail, cs, j));
      LookAllStep(e, tail, cs, j);
      ScanStep(e, buf, tail, page, recs, |w| + (j - k), s);
      PageAgrees(e, buf, tail, cs, page, k, k', j + 1, w, StepRec(e, buf, tail, page, cs[j].a.Rec(), s));
    } else {
      ScanEnd(e, buf, tail, page, recs, s);
    }
  }

  lemma InsidePage(cs: seq<Copy>, page: nat, k: nat, k': nat, j: nat, w: seq<MemRec>)
    requires OfPage(cs, page, k, k') && k < j < k'
    ensures cs[j].a.Page() == page && Before(cs, j) == page
    ensures (w + Recorded(cs, k, k'))[|w| + (j - k)] == cs[j].a.Rec()
  {
    assert cs[j - 1].a.Page() == page;
  }

  lemma LookAllStep(e: Env, tail: nat, cs: seq<Copy>, j: nat)
    requires j < |cs|
    ensures LookAll(e, tail, cs, j + 1) == Look(e, tail, Before(cs, j), cs[j], LookAll(e, tail, cs, j))
  {
  }

  lemma InBuffer(e: Env, cs: seq<Copy>, j: nat)
    requires InRow(e, cs) && j < |cs|
    ensures cs[0].a.dest <= cs[j].a.dest && cs[j].from == FileAddress(e, cs[j].a.Rec())
  {
    hide FileAddress;
  }

  /** The copies of a page that is skipped. */
  lemma {:induction false} PageSkipped(e: Env, tail: nat, cs: seq<Copy>, page: nat, k: nat, k': nat, j: nat)
    requires OfPage(cs, page, k, k') && 0 < k < j <= k' && GetAddr(page, 0) < LookAll(e, tail, cs, k).pos
    ensures var t := LookAll(e, tail, cs, j);
      !t.open && t.pos == LookAll(e, tail, cs, k).pos && t.count == LookAll(e, tail, cs, k).count
    decreases j - k
  {
    hide PrefixLen;
    assert cs[j - 1].a.Page() == page;
    if j - 1 > k {
      PageSkipped(e, tail, cs, page, k, k', j - 1);
      assert Before(cs, j - 1) == page;
    } else {
      assert Before(cs, k) < page;
    }
  }

  /** The first copy of a page that is scanned. */
  lemma PageOpened(e: Env, tail: nat, cs: seq<Copy>, page: nat, k: nat, k': nat)
    requires OfPage(cs, page, k, k') && k < k' && LookAll(e, tail, cs, k).pos <= GetAddr(page, 0)
    ensures LookAll(e, tail, cs, k + 1) == Look(e, tail, page, cs[k], LookAll(e, tail, cs, k).(open := true))
  {
    hide PrefixLen;
    assert k > 0 ==> Before(cs, k) < page;
  }

  /** One page of the write. */
  lemma PageOfRun(e: Env, v: View, cs: seq<Copy>, buf: nat, tail: nat, page: nat, k: nat, k': nat, s: Scan)
    requires InRow(e, cs) && OfPage(cs, page, k, k') && WellFormed(InsertAll(v, Arrivals(cs)))
    requires buf <= cs[0].a.dest && PageNum(buf) <= page <= PageNum(tail) && OldInFront(v, buf, tail)
    requires Agree(s, LookAll(e, tail, cs, k))
    ensures Agree(VisitPage(e, InsertAll(v, Arrivals(cs)), buf, tail, page, s), LookAll(e, tail, cs, k'))
  {
    var v2 := InsertAll(v, Arrivals(cs));
    hide *;
    OfPageIs(cs, page, k, k');
    AgreeIs(s, LookAll(e, tail, cs, k));
    if k == k' {
      NoRecordsOfPage(v, cs, page, k);
      NothingNewAgrees(e, v, v2, buf, tail, page, s, LookAll(e, tail, cs, k));
    } else if GetAddr(page, 0) < s.diffPos {
      StartsAtZero(e, tail, cs, k);
      PageSkipped(e, tail, cs, page, k, k', k');
      SkippedAgrees(e, v2, buf, tail, page, s, LookAll(e, tail, cs, k), LookAll(e, tail, cs, k'));
    } else {
      RecordsOfPage(e, v, cs, page, k, k');
      var w := Survivors(Recs(v, page), cs[k].a.Rec());
      InBuffer(e, cs, k);
      PageOpened(e, tail, cs, page, k, k');
      var t := LookAll(e, tail, cs, k).(open := true);
      AgreeIs(s, t);
      LookedAt(e, buf, tail, cs[k], s, t);
      var recs := w + Recorded(cs, k, k');
      FirstRecorded(cs, k, k', w);
      OldOnes(e, v, cs, buf, tail, page, k, k', s);
      ScanStep(e, buf, tail, page, recs, |w|, s);
      PageAgrees(e, buf, tail, cs, page, k, k', k + 1, w, StepRec(e, buf, tail, page, cs[k].a.Rec(), s));
      VisitIs(e, v2, buf, tail, page, s);
    }
  }

  lemma AgreeIs(s: Scan, t: Sight)
    ensures Agree(s, t) <==> s.diffPos == t.pos && Total(s.hits) == t.count
  {
  }

  lemma OfPageIs(cs: seq<Copy>, page: nat, k: nat, k': nat)
    requires OfPage(cs, page, k, k')
    ensures k <= k' <= |cs| && (k < k' ==> cs[k].a.Page() == page)
  {
  }

  lemma StartsAtZero(e: Env, tail: nat, cs: seq<Copy>, k: nat)
    requires k <= |cs|
    ensures k == 0 ==> LookAll(e, tail, cs, k) == Sight(0, true, 0)
  {
  }

  /** On a page without copies, the old records are in front of the buffer. */
  lemma NothingNewAgrees(e: Env, v: View, v2: View, buf: nat, tail: nat, page: nat, s: Scan, t: Sight)
    requires (page in v2 <==> page in v) && Recs(v2, page) == Recs(v, page)
    requires PageNum(buf) <= page <= PageNum(tail) && OldInFront(v, buf, tail) && Agree(s, t)
    ensures Agree(VisitPage(e, v2, buf, tail, page, s), t)
  {
    if page in v2 {
      PassOver(e, buf, tail, page, v2[page], 0, |v2[page]|, s);
    }
  }

  lemma SkippedAgrees(e: Env, v: View, buf: nat, tail: nat, page: nat, s: Scan, t: Sight, t': Sight)
    requires GetAddr(page, 0) < s.diffPos && Agree(s, t) && t'.pos == t.pos && t'.count == t.count
    ensures Agree(VisitPage(e, v, buf, tail, page, s), t')
  {
  }

  lemma FirstRecorded(cs: seq<Copy>, k: nat, k': nat, w: seq<MemRec>)
    requires k < k' <= |cs|
    ensures var recs := w + Recorded(cs, k, k'); |recs| > |w| && recs[|w|] == cs[k].a.Rec()
  {
  }

  lemma VisitIs(e: Env, v: View, buf: nat, tail: nat, page: nat, s: Scan)
    requires s.diffPos <= GetAddr(page, 0) && Recs(v, page) != []
    ensures VisitPage(e, v, buf, tail, page, s) == ScanPage(e, buf, tail, page, Recs(v, page), 0, s)
  {
  }

  /** What survives of the older records is in front of the buffer. */
  lemma OldOnes(e: Env, v: View, cs: seq<Copy>, buf: nat, tail: nat, page: nat, k: nat, k': nat, s: Scan)
    requires k < k' <= |cs| && PageNum(buf) <= page <= PageNum(tail) && OldInFront(v, buf, tail)
    ensures var w := Survivors(Recs(v, page), cs[k].a.Rec());
      var recs := w + Recorded(cs, k, k');
      ScanPage(e, buf, tail, page, recs, 0, s) == ScanPage(e, buf, tail, page, recs, |w|, s)
  {
    hide ScanPage;
    var w := Survivors(Recs(v, page), cs[k].a.Rec());
    var recs := w + Recorded(cs, k, k');
    assert forall j :: 0 <= j < |w| ==> recs[j] == w[j] && w[j] in Recs(v, page);
    PassOver(e, buf, tail, page, recs, 0, |w|, s);
  }

  // ---- The theorem --------------------------------------------------------------------------------

  lemma PagesSplit(e: Env, cs: seq<Copy>, page: nat, k: nat) returns (k': nat)
    requires InRow(e, cs) && k <= |cs|
    requires forall i :: 0 <= i < k ==> cs[i].a.Page() < page
    requires forall i :: k <= i < |cs| ==> cs[i].a.Page() >= page
    ensures OfPage(cs, page, k, k')
  {
    hide FileAddress;
    k' := k;
    while k' < |cs| && cs[k'].a.Page() == page
      invariant k <= k' <= |cs| && forall i :: k <= i < k' ==> cs[i].a.Page() == page
    {
      k' := k' + 1;
    }
    forall i | k' <= i < |cs|
      ensures cs[i].a.Page() > page
    {
      assert k' < i ==> cs[k'].a.dest < cs[i].a.dest;
    }
  }

  lemma {:induction false} PagesAgree(e: Env, v: View, cs: seq<Copy>, buf: nat, tail: nat, page: nat, k: nat, s: Scan)
    requires InRow(e, cs) && WellFormed(InsertAll(v, Arrivals(cs))) && k <= |cs|
    requires buf <= cs[0].a.dest && PageNum(buf) <= page && OldInFront(v, buf, tail)
    requires forall i :: 0 <= i < k ==> cs[i].a.Page() < page
    requires forall i :: k <= i < |cs| ==> cs[i].a.Page() >= page
    requires Agree(s, LookAll(e, tail, cs, k))
    ensures Total(ScanPages(e, InsertAll(v, Arrivals(cs)), buf, tail, page, s).hits) == LookAll(e, tail, cs, |cs|).count
    decreases PageNum(tail) + 1 - page
  {
    hide *;
    var v2 := InsertAll(v, Arrivals(cs));
    if page <= PageNum(tail) {
      var k' := PagesSplit(e, cs, page, k);
      PageOfRun(e, v, cs, buf, tail, page, k, k', s);
      var s' := VisitPage(e, v2, buf, tail, page, s);
      SplitNext(cs, page, k, k');
      PageOpens(e, v2, buf, tail, page, s);
      PagesAgree(e, v, cs, buf, tail, page + 1, k', s');
    } else {
      AgreeIs(s, LookAll(e, tail, cs, k));
      BehindTail(e, tail, cs, page, k, |cs|);
      NoPagesLeft(e, v2, buf, tail, page, s);
    }
  }

  lemma NoPagesLeft(e: Env, v: View, buf: nat, tail: nat, page: nat, s: Scan)
    requires page > PageNum(tail)
    ensures ScanPages(e, v, buf, tail, page, s) == s
  {
  }

  lemma SplitNext(cs: seq<Copy>, page: nat, k: nat, k': nat)
    requires OfPage(cs, page, k, k')
    ensures k' <= |cs| && (forall i :: 0 <= i < k' ==> cs[i].a.Page() < page + 1)
    ensures forall i :: k' <= i < |cs| ==> cs[i].a.Page() >= page + 1
  {
  }

  /** Copies on pages behind the tail do not count. */
  lemma {:induction false} BehindTail(e: Env, tail: nat, cs: seq<Copy>, page: nat, k: nat, j: nat)
    requires k <= j <= |cs| && page > PageNum(tail) && forall i :: k <= i < |cs| ==> cs[i].a.Page() >= page
    ensures LookAll(e, tail, cs, j).count == LookAll(e, tail, cs, k).count
    decreases j - k
  {
    if k < j {
      BehindTail(e, tail, cs, page, k, j - 1);
      hide PrefixLen;
      assert cs[j - 1].a.Page() >= page && cs[j - 1].a.dest > tail;
    }
  }

  /** Records at ascending addresses in a buffer, usable or not, on pages where everything older is in front
      of the buffer, in one write: what is counted is what looking from one to the next adds up to. */
  lemma RunOfCopies(e: Env, v: View, cs: seq<Copy>, buf: nat, length: nat)
    requires InRow(e, cs) && WellFormed(v) && buf <= cs[0].a.dest && OldInFront(v, buf, buf + length)
    ensures Total(Fwrite(e, InsertAll(v, Arrivals(cs)), buf, length).hits)
         == LookAll(e, buf + length, cs, |cs|).count
  {
    InsertAllKeepsWellFormed(v, Arrivals(cs));
    StartsAtZero(e, buf + length, cs, 0);
    PagesInOrder(e, cs, buf);
    hide InRow, WellFormed, OldInFront;
    PagesAgree(e, v, cs, buf, buf + length, PageNum(buf), 0, Scan(0, [], 0));
  }

  lemma PagesInOrder(e: Env, cs: seq<Copy>, buf: nat)
    requires InRow(e, cs) && buf <= cs[0].a.dest
    ensures forall i :: 0 <= i < |cs| ==> cs[i].a.Page() >= PageNum(buf)
  {
    forall i | 0 <= i < |cs|
      ensures cs[i].a.Page() >= PageNum(buf)
    {
      InBuffer(e, cs, i);
    }
  }

  // ---- When everything counts --------------------------------------------------------------------

  /** Each copy begins where the one before ends. */
  ghost predicate SideBySide(cs: seq<Copy>) {
    && (forall i :: 0 <= i < |cs| ==> cs[i].n > 0)
    && (forall i :: 0 < i < |cs| ==> cs[i].a.dest == cs[i - 1].a.dest + cs[i - 1].n)
  }

  function End(cs: seq<Copy>): nat
    requires cs != []
  {
    var last := cs[|cs| - 1];
    last.a.dest + last.n
  }

  /** Every record can be used, every comparison ends where its copy ends, and every copy starts on the page
      of the one before or at the start of a page. */
  ghost predicate StopsAtSeams(e: Env, cs: seq<Copy>)
    requires cs != []
  {
    forall i :: 0 <= i < |cs| ==> StopsAt(e, cs, i)
  }

  predicate StopsAt(e: Env, cs: seq<Copy>, i: nat)
    requires i < |cs|
  {
    && cs[i].from.Some?
    && (cs[i].a.dest <= End(cs) ==> PrefixLen(e, cs[i].a.dest, cs[i].from.value, End(cs) - cs[i].a.dest) == cs[i].n)
    && (cs[i].a.Page() == Before(cs, i) || PageOffset(cs[i].a.dest) == 0)
  }

  lemma {:induction false} EndsAscend(cs: seq<Copy>, i: nat, j: nat)
    requires SideBySide(cs) && i <= j < |cs|
    ensures cs[i].a.dest + cs[i].n <= cs[j].a.dest + cs[j].n && (i < j ==> cs[i].a.dest + cs[i].n <= cs[j].a.dest)
    decreases j - i
  {
    if i < j {
      EndsAscend(cs, i, j - 1);
      assert cs[j].a.dest == cs[j - 1].a.dest + cs[j - 1].n;
    }
  }

  lemma LooksAtOne(e: Env, cs: seq<Copy>, k: nat, s: Sight)
    requires k < |cs| && StopsAt(e, cs, k) && s.open && cs[k].a.dest <= End(cs) && s.pos <= cs[k].a.dest
    ensures Look(e, End(cs), Before(cs, k), cs[k], s) == Sight(cs[k].a.dest + cs[k].n, true, s.count + cs[k].n)
  {
    hide PrefixLen;
    assert PageOffset(cs[k].a.dest) == 0 ==> GetAddr(cs[k].a.Page(), 0) == cs[k].a.dest;
  }

  lemma StopsEverywhere(e: Env, cs: seq<Copy>, k: nat)
    requires cs != [] && SideBySide(cs) && StopsAtSeams(e, cs) && k < |cs|
    ensures StopsAt(e, cs, k) && (k > 0 ==> cs[k].a.dest == cs[k - 1].a.dest + cs[k - 1].n)
  {
    hide StopsAt;
  }

  lemma EndIs(cs: seq<Copy>)
    requires cs != []
    ensures End(cs) == cs[|cs| - 1].a.dest + cs[|cs| - 1].n
  {
  }

  lemma {:induction false} LooksAtAll(e: Env, cs: seq<Copy>, k: nat)
    requires cs != [] && SideBySide(cs) && StopsAtSeams(e, cs) && k <= |cs|
    ensures var t := LookAll(e, End(cs), cs, k);
      t.open && (k == 0 ==> t == Sight(0, true, 0))
      && (k > 0 ==> t.pos == cs[k - 1].a.dest + cs[k - 1].n && t.count == t.pos - cs[0].a.dest)
  {
    hide *;
    if k > 0 {
      LooksAtAll(e, cs, k - 1);
      EndIs(cs);
      EndsAscend(cs, k - 1, |cs| - 1);
      StopsEverywhere(e, cs, k - 1);
      LooksAtOne(e, cs, k - 1, LookAll(e, End(cs), cs, k - 1));
      LookAllStep(e, End(cs), cs, k - 1);
    } else {
      StartsAtZero(e, End(cs), cs, 0);
    }
  }

  /** Then all bytes of all copies count. */
  lemma AllCopiesCount(e: Env, v: View, cs: seq<Copy>)
    requires InRow(e, cs) && SideBySide(cs) && WellFormed(v) && StopsAtSeams(e, cs)
    requires OldInFront(v, cs[0].a.dest, End(cs))
    ensures End(cs) >= cs[0].a.dest
    ensures var n := End(cs) - cs[0].a.dest;
      Total(Fwrite(e, InsertAll(v, Arrivals(cs)), cs[0].a.dest, n).hits) == n
  {
    hide *;
    InRowIs(e, cs);
    EndIs(cs);
    EndsAscend(cs, 0, |cs| - 1);
    RunOfCopies(e, v, cs, cs[0].a.dest, End(cs) - cs[0].a.dest);
    LooksAtAll(e, cs, |cs|);
  }

  lemma InRowIs(e: Env, cs: seq<Copy>)
    requires InRow(e, cs)
    ensures cs != []
  {
  }
}
