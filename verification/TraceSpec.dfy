/** What the trace index of the default build means: for every page, the records that insertRec
    keeps. A record is appended when its offset is larger than the last one; otherwise the page
    starts over with it. */
module TraceSpec {
  import opened Addr

  datatype MemRec = MemRec(fileOffset: nat, fileName: nat, pageOffset: nat, fd: int)

  const MEMRECPERENTRY := 38

  type View = map<nat, seq<MemRec>>

  /** One call of insertRec. */
  datatype Arrival = Arrival(dest: nat, fileOffset: nat, fileName: nat, fd: int) {
    function Page(): nat {
      PageNum(dest)
    }

    function Rec(): MemRec {
      MemRec(fileOffset, fileName, PageOffset(dest), fd)
    }
  }

  /** The records of a page that follows the index, none for an untraced page. */
  function Recs(v: View, page: nat): seq<MemRec> {
    if page in v then v[page] else []
  }

  predicate Restarts(s: seq<MemRec>, r: MemRec) {
    s != [] && s[|s| - 1].pageOffset >= r.pageOffset
  }

  function AppendOrReset(s: seq<MemRec>, r: MemRec): seq<MemRec> {
    if Restarts(s, r) then [r] else s + [r]
  }

  function Insert(v: View, a: Arrival): View {
    v[a.Page() := AppendOrReset(Recs(v, a.Page()), a.Rec())]
  }

  function InsertAll(v: View, arrivals: seq<Arrival>): View {
    if arrivals == [] then v
    else Insert(InsertAll(v, arrivals[..|arrivals| - 1]), arrivals[|arrivals| - 1])
  }

  /** r has arrived at a page: behind its other records when the last of them has a smaller offset, and in
      their place otherwise; no other page has changed. */
  ghost predicate ArrivedAt(before: View, after: View, page: nat, r: MemRec) {
    && after.Keys == before.Keys + {page}
    && (forall p :: p in before && p != page ==> after[p] == before[p])
    && page in after && after[page] != [] && after[page][|after[page]| - 1] == r
    && (page in before && before[page] != [] && before[page][|before[page]| - 1].pageOffset < r.pageOffset ==>
          after[page] == before[page] + [r])
    && (page in before && before[page] != [] && before[page][|before[page]| - 1].pageOffset >= r.pageOffset ==>
          after[page] == [r])
    && (page !in before || before[page] == [] ==> after[page] == [r])
  }

  lemma InsertIs(v: View, a: Arrival)
    ensures Insert(v, a) ==
      v[PageNum(a.dest) := if PageNum(a.dest) in v then AppendOrReset(v[PageNum(a.dest)], a.Rec()) else [a.Rec()]]
    ensures a.Rec() == MemRec(a.fileOffset, a.fileName, PageOffset(a.dest), a.fd)
  {
    assert [] + [a.Rec()] == [a.Rec()];
  }

  lemma InsertArrives(v: View, dest: nat, fileOffset: nat, fileName: nat, fd: int)
    ensures ArrivedAt(v, Insert(v, Arrival(dest, fileOffset, fileName, fd)), dest / 4096,
                      MemRec(fileOffset, fileName, dest % 4096, fd))
  {
    assert PageOffset(dest) == dest % 4096 && PageNum(dest) == dest / 4096;
  }

  lemma InsertAllOneMore(v: View, arrivals: seq<Arrival>, a: Arrival)
    ensures InsertAll(v, arrivals + [a]) == Insert(InsertAll(v, arrivals), a)
  {
    assert (arrivals + [a])[..|arrivals|] == arrivals;
  }

  lemma {:induction false} InsertAllInTwo(v: View, s: seq<Arrival>, t: seq<Arrival>)
    ensures InsertAll(v, s + t) == InsertAll(InsertAll(v, s), t)
  {
    if t == [] {
      assert s + t == s;
    } else {
      hide InsertAll, Insert;
      var n := |t| - 1;
      InsertAllInTwo(v, s, t[..n]);
      InsertAllOneMore(v, s + t[..n], t[n]);
      InsertAllOneMore(InsertAll(v, s), t[..n], t[n]);
      assert t[..n] + [t[n]] == t;
      assert s + t[..n] + [t[n]] == s + t;
    }
  }

  /** Pages that nothing arrives for stay as they are. */
  lemma {:induction false} InsertAllElsewhere(v: View, arrivals: seq<Arrival>, page: nat)
    requires forall a :: a in arrivals ==> a.Page() != page
    ensures page in InsertAll(v, arrivals) <==> page in v
    ensures Recs(InsertAll(v, arrivals), page) == Recs(v, page)
  {
    if arrivals != [] {
      var n := |arrivals| - 1;
      assert arrivals[n] in arrivals;
      InsertAllElsewhere(v, arrivals[..n], page);
    }
  }

  // ---- The invariant of every run ---------------------------------------------------------

  ghost predicate Ascending(s: seq<MemRec>) {
    forall i, j :: 0 <= i < j < |s| ==> s[i].pageOffset < s[j].pageOffset
  }

  ghost predicate InPage(s: seq<MemRec>) {
    forall i :: 0 <= i < |s| ==> s[i].pageOffset < PAGE_SIZE
  }

  ghost predicate WellFormed(v: View) {
    forall p :: p in v ==> Ascending(v[p]) && InPage(v[p])
  }

  lemma InsertKeepsWellFormed(v: View, a: Arrival)
    requires WellFormed(v)
    ensures WellFormed(Insert(v, a))
  {
    var s := Recs(v, a.Page());
    assert Ascending(s) && InPage(s);
  }

  lemma {:induction false} InsertAllKeepsWellFormed(v: View, arrivals: seq<Arrival>)
    requires WellFormed(v)
    ensures WellFormed(InsertAll(v, arrivals))
  {
    if arrivals != [] {
      InsertAllKeepsWellFormed(v, arrivals[..|arrivals| - 1]);
      InsertKeepsWellFormed(InsertAll(v, arrivals[..|arrivals| - 1]), arrivals[|arrivals| - 1]);
    }
  }

  lemma {:induction false} AscendingIsShort(s: seq<MemRec>, bound: nat)
    requires Ascending(s) && forall i :: 0 <= i < |s| ==> s[i].pageOffset < bound
    ensures |s| <= bound
    decreases bound
  {
    if s != [] {
      var last := s[|s| - 1].pageOffset;
      AscendingIsShort(s[..|s| - 1], last);
    }
  }

  /** Blocks of 38 records that a page's records fill. */
  function Blocks(count: nat): nat {
    (count + MEMRECPERENTRY - 1) / MEMRECPERENTRY
  }

  /** However long the run, a page holds at most 4096 records, in at most 108 blocks. */
  lemma PageStaysSmall(v: View, arrivals: seq<Arrival>, page: nat)
    requires WellFormed(v)
    ensures var n := |Recs(InsertAll(v, arrivals), page)|; n <= PAGE_SIZE && Blocks(n) <= 108
  {
    InsertAllKeepsWellFormed(v, arrivals);
    AscendingIsShort(Recs(InsertAll(v, arrivals), page), PAGE_SIZE);
  }

  // ---- An independent description of a run -------------------------------------------------

  /** The records that arrived for one page, in order of arrival. */
  function OnPage(arrivals: seq<Arrival>, page: nat): seq<MemRec> {
    if arrivals == [] then []
    else
      var a := arrivals[|arrivals| - 1];
      OnPage(arrivals[..|arrivals| - 1], page) + (if a.Page() == page then [a.Rec()] else [])
  }

  /** s[k..] is the longest strictly ascending suffix of s. */
  ghost predicate LongestAscendingSuffix(s: seq<MemRec>, k: nat) {
    && k <= |s| && Ascending(s[k..])
    && (0 < k ==> k < |s| && s[k - 1].pageOffset >= s[k].pageOffset)
  }

  /** From the empty index, every run leaves on each page the longest strictly ascending suffix
      of what arrived there; pages nothing arrived for are not traced. */
  lemma {:induction false} RunKeepsLongestAscendingSuffix(arrivals: seq<Arrival>, page: nat) returns (k: nat)
    ensures page in InsertAll(map[], arrivals) <==> OnPage(arrivals, page) != []
    ensures LongestAscendingSuffix(OnPage(arrivals, page), k)
    ensures Recs(InsertAll(map[], arrivals), page) == OnPage(arrivals, page)[k..]
  {
    if arrivals == [] {
      k := 0;
    } else {
      var init, a := arrivals[..|arrivals| - 1], arrivals[|arrivals| - 1];
      k := RunKeepsLongestAscendingSuffix(init, page);
      if a.Page() == page {
        k := ExtendSuffix(OnPage(init, page), k, a.Rec());
      }
    }
  }

  lemma ExtendSuffix(s: seq<MemRec>, k: nat, r: MemRec) returns (k': nat)
    requires LongestAscendingSuffix(s, k)
    ensures LongestAscendingSuffix(s + [r], k')
    ensures AppendOrReset(s[k..], r) == (s + [r])[k'..]
  {
    k' := if Restarts(s[k..], r) then |s| else k;
    assert (s + [r])[k'..] == AppendOrReset(s[k..], r);
    if k' == k {
      AppendAscends(s[k..], r);
    }
  }

  lemma AppendAscends(s: seq<MemRec>, r: MemRec)
    requires Ascending(s) && !Restarts(s, r)
    ensures Ascending(s + [r])
  {
  }

  // ---- Strictly ascending addresses never reset each other ------------------------------------

  ghost predicate AscendingDests(arrivals: seq<Arrival>) {
    forall i, j :: 0 <= i < j < |arrivals| ==> arrivals[i].dest < arrivals[j].dest
  }

  /** What is left of a page's older records when r is the first new one. */
  function Survivors(s: seq<MemRec>, r: MemRec): seq<MemRec> {
    if Restarts(s, r) then [] else s
  }

  lemma {:induction false} OnPageLast(arrivals: seq<Arrival>, page: nat)
    requires OnPage(arrivals, page) != []
    ensures var s := OnPage(arrivals, page);
      exists i :: 0 <= i < |arrivals| && arrivals[i].Page() == page && arrivals[i].Rec() == s[|s| - 1]
  {
    var n := |arrivals| - 1;
    if arrivals[n].Page() != page {
      OnPageLast(arrivals[..n], page);
      var s := OnPage(arrivals[..n], page);
      var i :| 0 <= i < n && arrivals[..n][i].Page() == page && arrivals[..n][i].Rec() == s[|s| - 1];
      assert arrivals[i].Page() == page;
    }
  }

  lemma LaterIsLarger(init: seq<Arrival>, a: Arrival, page: nat)
    requires AscendingDests(init + [a]) && a.Page() == page && OnPage(init, page) != []
    ensures var s := OnPage(init, page); s[|s| - 1].pageOffset < a.Rec().pageOffset
  {
    OnPageLast(init, page);
    var s := OnPage(init, page);
    var i :| 0 <= i < |init| && init[i].Page() == page && init[i].Rec() == s[|s| - 1];
    assert (init + [a])[i].dest < (init + [a])[|init|].dest;
  }

  lemma AppendBehind(w: seq<MemRec>, s: seq<MemRec>, r: MemRec)
    requires s != [] && s[|s| - 1].pageOffset < r.pageOffset
    ensures AppendOrReset(w + s, r) == w + (s + [r])
  {
    assert (w + s)[|w + s| - 1] == s[|s| - 1];
  }

  lemma InsertOnPage(v: View, a: Arrival, page: nat)
    ensures Recs(Insert(v, a), page)
         == if a.Page() == page then AppendOrReset(Recs(v, page), a.Rec()) else Recs(v, page)
  {
  }

  lemma OnPageOneMore(arrivals: seq<Arrival>, a: Arrival, page: nat)
    ensures OnPage(arrivals + [a], page) == OnPage(arrivals, page) + (if a.Page() == page then [a.Rec()] else [])
  {
    assert (arrivals + [a])[..|arrivals|] == arrivals;
  }

  lemma FirstOnPage(w: seq<MemRec>, r: MemRec)
    ensures AppendOrReset(w, r) == Survivors(w, r) + [r]
  {
  }

  /** A run of strictly ascending addresses leaves every page it reaches with all of its own
      records, in order, behind what its first record there let survive; other pages keep
      what they had. */
  lemma {:induction false} AscendingRunAppends(v: View, arrivals: seq<Arrival>, page: nat)
    requires AscendingDests(arrivals)
    ensures var s := OnPage(arrivals, page);
      Recs(InsertAll(v, arrivals), page)
        == if s == [] then Recs(v, page) else Survivors(Recs(v, page), s[0]) + s
  {
    if arrivals != [] {
      var n := |arrivals| - 1;
      var init, a := arrivals[..n], arrivals[n];
      assert arrivals == init + [a];
      AscendingRunAppends(v, init, page);
      hide InsertAll, Insert, OnPage, Recs, Survivors, AppendOrReset;
      InsertAllOneMore(v, init, a);
      InsertOnPage(InsertAll(v, init), a, page);
      OnPageOneMore(init, a, page);
      var s := OnPage(init, page);
      if a.Page() == page && s != [] {
        LaterIsLarger(init, a, page);
        AppendBehind(Survivors(Recs(v, page), s[0]), s, a.Rec());
      } else {
        FirstOnPage(Recs(v, page), a.Rec());
      }
    }
  }
}
