/** ts_memcpy_traced of the default build, record by record: which records a page has afterwards, in terms
    of addresses and of the fields of the records. */
module MovedRecords {
  import opened Addr
  import opened TraceSpec
  import opened TracedSpec

  /** x on page q is record r of page p, moved with its bytes: as far behind dest as r was behind src, and
      with the same place in the same file. */
  predicate SameRecord(dest: nat, src: nat, p: nat, r: MemRec, q: nat, x: MemRec) {
    && GetAddr(p, r.pageOffset) >= src
    && dest + (GetAddr(p, r.pageOffset) - src) == GetAddr(q, x.pageOffset)
    && x.fileOffset == r.fileOffset && x.fileName == r.fileName && x.fd == r.fd
  }

  ghost predicate MovedTo(v: View, dest: nat, src: nat, n: nat, q: nat, x: MemRec) {
    x.pageOffset < PAGE_SIZE
    && exists p, r :: PageNum(src) <= p <= PageNum(src + n) && r in Recs(v, p) && SameRecord(dest, src, p, r, q, x)
  }

  lemma ShiftedIs(v: View, dest: nat, src: nat, n: nat, p: nat, r: MemRec, q: nat, x: MemRec)
    requires WellFormed(v) && Separate(dest, src, n) && IsSource(v, src, PageNum(src + n) + 1, p, r)
    ensures Shifted(dest, src, p, r).Page() == q && Shifted(dest, src, p, r).Rec() == x
       <==> x.pageOffset < PAGE_SIZE && SameRecord(dest, src, p, r, q, x)
  {
    ShiftedAddress(v, dest, src, n, PageNum(src + n) + 1, p, r);
    var a := Shifted(dest, src, p, r);
    assert a.fileOffset == r.fileOffset && a.fileName == r.fileName && a.fd == r.fd;
    hide Shifted, IsSource, WellFormed, Separate;
    PartsOf(a.dest, q, x.pageOffset);
  }

  lemma PartsOf(x: nat, q: nat, o: nat)
    ensures o < PAGE_SIZE && x == GetAddr(q, o) <==> PageNum(x) == q && PageOffset(x) == o
  {
  }

  lemma LandsWhereMoved(v: View, dest: nat, src: nat, n: nat, q: nat, x: MemRec)
    requires WellFormed(v) && Separate(dest, src, n)
    ensures x in Landed(v, dest, src, n, q) <==> MovedTo(v, dest, src, n, q, x)
  {
    LandedExactly(v, dest, src, n, q);
    hide Landed, Shifted, WellFormed, Separate, SameRecord;
    var end := PageNum(src + n) + 1;
    if Lands(v, dest, src, end, q, x) {
      var p, r :| IsSource(v, src, end, p, r)
                  && Shifted(dest, src, p, r).Page() == q && Shifted(dest, src, p, r).Rec() == x;
      ShiftedIs(v, dest, src, n, p, r, q, x);
    }
    if MovedTo(v, dest, src, n, q, x) {
      var p, r :| PageNum(src) <= p <= PageNum(src + n) && r in Recs(v, p) && SameRecord(dest, src, p, r, q, x);
      AtOrBehind(dest, src, p, r, q, x);
      assert IsSource(v, src, end, p, r);
      ShiftedIs(v, dest, src, n, p, r, q, x);
    }
  }

  lemma AtOrBehind(dest: nat, src: nat, p: nat, r: MemRec, q: nat, x: MemRec)
    requires SameRecord(dest, src, p, r, q, x)
    ensures GetAddr(p, r.pageOffset) >= src
  {
  }

  /** The records that page q had are not in the way of those that are moved there. */
  ghost predicate InFront(v: View, dest: nat, src: nat, n: nat, q: nat) {
    forall y, z :: y in Recs(v, q) && MovedTo(v, dest, src, n, q, z) ==> y.pageOffset < z.pageOffset
  }

  lemma SurvivorsAre(s: seq<MemRec>, t: seq<MemRec>)
    requires Ascending(s) && Ascending(t) && t != []
    ensures Survivors(s, t[0]) == if forall y, z :: y in s && z in t ==> y.pageOffset < z.pageOffset then s else []
  {
    if s != [] {
      var last := s[|s| - 1];
      assert last in s && t[0] in t;
      assert forall i :: 0 <= i < |s| ==> s[i].pageOffset <= last.pageOffset;
      assert forall i :: 0 <= i < |t| ==> t[0].pageOffset <= t[i].pageOffset;
    }
  }

  lemma CutIs(s: seq<MemRec>, offset: nat, x: MemRec)
    requires Ascending(s)
    ensures x in s[..FirstAtLeast(s, offset)] <==> x in s && x.pageOffset < offset
  {
    var k := FirstAtLeast(s, offset);
    assert forall i :: k <= i < |s| ==> s[k].pageOffset <= s[i].pageOffset;
    if x in s && x.pageOffset < offset {
      var i :| 0 <= i < |s| && s[i] == x;
      assert s[..k][i] == x;
    }
  }

  /** Page q has x after the move: x is moved there, or is one of the records that stay - in front of src on the
      first source page, and in the way of nothing that is moved there. */
  ghost predicate HasAfterMove(v: View, dest: nat, src: nat, n: nat, q: nat, x: MemRec) {
    || MovedTo(v, dest, src, n, q, x)
    || (x in Recs(v, q) && (q == PageNum(src) ==> x.pageOffset < PageOffset(src)) && InFront(v, dest, src, n, q))
  }

  /** Every page after a traced copy, record by record: it has the records moved there; and of those it had,
      the ones in front of src on the first source page, all or none on a destination page - none when one
      is not in front of what is moved there - and all on any other page. They ascend. */
  lemma PageAfterMove(v: View, dest: nat, src: nat, n: nat, q: nat)
    requires WellFormed(v) && Separate(dest, src, n)
    ensures var s := Recs(MemcpyTraced(v, dest, src, n), q);
      Ascending(s) && forall x :: x in s <==> HasAfterMove(v, dest, src, n, q, x)
  {
    TracedCopy(v, dest, src, n, q);
    LandedExactly(v, dest, src, n, q);
    RecsAscend(v, q);
    RecsAscend(MemcpyTraced(v, dest, src, n), q);
    forall x
      ensures x in Landed(v, dest, src, n, q) <==> MovedTo(v, dest, src, n, q, x)
    {
      LandsWhereMoved(v, dest, src, n, q, x);
    }
    var landed := Landed(v, dest, src, n, q);
    hide Landed, MovedTo, WellFormed, Separate, Survivors, FirstAtLeast, MemcpyTraced, Lands;
    if q == PageNum(src) {
      SourceStart(src, n);
      assert landed == [];
      forall x
        ensures x in Recs(v, q)[..FirstAtLeast(Recs(v, q), PageOffset(src))]
           <==> x in Recs(v, q) && x.pageOffset < PageOffset(src)
      {
        CutIs(Recs(v, q), PageOffset(src), x);
      }
    } else if landed != [] {
      SurvivorsAre(Recs(v, q), landed);
    }
  }

  lemma SourceStart(src: nat, n: nat)
    ensures PageNum(src) <= PageNum(src) <= PageNum(src + n)
  {
  }
}
