/** Any number of copies that are moved together with ts_memcpy_traced, and then written out. */
module MovedRuns {
  import opened Addr
  import opened Bst
  import opened EndToEnd
  import opened MatchSpec
  import opened SeamRuns
  import opened TraceSpec
  import opened TracedSpec

  /** The same copies, as far behind d2 as they were behind d1. */
  function Shift(cs: seq<Copy>, d1: nat, d2: nat): seq<Copy>
    requires forall i :: 0 <= i < |cs| ==> cs[i].a.dest >= d1
  {
    seq(|cs|, i requires 0 <= i < |cs| => cs[i].(a := cs[i].a.(dest := d2 + (cs[i].a.dest - d1))))
  }

  /** The copies are in the n bytes from buf on, and whatever else the pages have is in front of them. */
  ghost predicate InBytes(v: View, cs: seq<Copy>, buf: nat, n: nat) {
    && (forall i :: 0 <= i < |cs| ==> buf <= cs[i].a.dest <= buf + n)
    && OldInFront(v, buf, buf + n)
  }

  // ---- Which records are at or behind d1 ---------------------------------------------------------

  ghost predicate IsOne(cs: seq<Copy>, p: nat, r: MemRec) {
    exists i :: 0 <= i < |cs| && cs[i].a.Page() == p && cs[i].a.Rec() == r
  }

  lemma OnPageIsOne(cs: seq<Copy>, p: nat, r: MemRec)
    ensures r in OnPage(Arrivals(cs), p) <==> IsOne(cs, p, r)
  {
    OnPageMembers(Arrivals(cs), p, r);
    if a :| a in Arrivals(cs) && a.Page() == p && a.Rec() == r {
      var i :| 0 <= i < |cs| && Arrivals(cs)[i] == a;
    }
    if i :| 0 <= i < |cs| && cs[i].a.Page() == p && cs[i].a.Rec() == r {
      assert Arrivals(cs)[i] in Arrivals(cs);
    }
  }

  lemma SurvivorsWere(s: seq<MemRec>, r: MemRec)
    ensures forall x :: x in Survivors(s, r) ==> x in s
  {
  }

  lemma OldAreInFront(v: View, cs: seq<Copy>, buf: nat, n: nat, p: nat, r: MemRec)
    requires InBytes(v, cs, buf, n) && PageNum(buf) <= p <= PageNum(buf + n) && r in Recs(v, p)
    ensures GetAddr(p, r.pageOffset) < buf
  {
  }

  lemma OneIsInside(v: View, cs: seq<Copy>, buf: nat, n: nat, p: nat, r: MemRec)
    requires InBytes(v, cs, buf, n) && IsOne(cs, p, r)
    ensures GetAddr(p, r.pageOffset) >= buf && PageNum(buf) <= p <= PageNum(buf + n)
  {
  }

  lemma RunRecords(e: Env, v: View, cs: seq<Copy>, buf: nat, n: nat, p: nat, r: MemRec)
    requires InRow(e, cs) && InBytes(v, cs, buf, n) && PageNum(buf) <= p <= PageNum(buf + n)
    ensures r in Recs(InsertAll(v, Arrivals(cs)), p) && GetAddr(p, r.pageOffset) >= buf <==> IsOne(cs, p, r)
  {
    hide *;
    DestsAscend(e, cs);
    AscendingRunAppends(v, Arrivals(cs), p);
    OnPageIsOne(cs, p, r);
    var s := OnPage(Arrivals(cs), p);
    if s != [] { SurvivorsWere(Recs(v, p), s[0]); }
    if r in Recs(v, p) { OldAreInFront(v, cs, buf, n, p, r); }
    if IsOne(cs, p, r) { OneIsInside(v, cs, buf, n, p, r); }
  }

  // ---- What is moved ------------------------------------------------------------------------------

  lemma ShiftedOne(cs: seq<Copy>, d1: nat, d2: nat, n: nat, i: nat)
    requires forall i :: 0 <= i < |cs| ==> cs[i].a.dest >= d1
    requires i < |cs| && cs[i].a.dest <= d1 + n && Separate(d2, d1, n)
    ensures Shifted(d2, d1, cs[i].a.Page(), cs[i].a.Rec()) == Arrivals(Shift(cs, d1, d2))[i]
    ensures GetAddr(cs[i].a.Page(), cs[i].a.Rec().pageOffset) == cs[i].a.dest
  {
    assert SourceEnd(d1, n) > d1 + n;
  }

  lemma MovedAre(e: Env, v: View, cs: seq<Copy>, d1: nat, d2: nat, n: nat, a: Arrival)
    requires InRow(e, cs) && InBytes(v, cs, d1, n) && Separate(d2, d1, n)
    requires WellFormed(InsertAll(v, Arrivals(cs)))
    ensures a in Copies(InsertAll(v, Arrivals(cs)), d2, d1, PageNum(d1 + n) + 1) <==> a in Arrivals(Shift(cs, d1, d2))
  {
    hide *;
    var w, end := InsertAll(v, Arrivals(cs)), PageNum(d1 + n) + 1;
    CopiesAre(w, d2, d1, end, a);
    InBytesIs(v, cs, d1, n);
    ManyAre(cs, d1, d2);
    if IsCopy(w, d2, d1, end, a) {
      var p, r := SourceOf(w, d2, d1, end, a);
      SourceIs(w, d1, end, p, r);
      RunRecords(e, v, cs, d1, n, p, r);
      var i := IndexOf(cs, p, r);
      ShiftedOne(cs, d1, d2, n, i);
    }
    if a in Arrivals(Shift(cs, d1, d2)) {
      var i :| 0 <= i < |cs| && Arrivals(Shift(cs, d1, d2))[i] == a;
      ShiftedOne(cs, d1, d2, n, i);
      OneOf(cs, i);
      var p, r := cs[i].a.Page(), cs[i].a.Rec();
      OneIsInside(v, cs, d1, n, p, r);
      RunRecords(e, v, cs, d1, n, p, r);
      SourceIs(w, d1, end, p, r);
      CopyOf(w, d2, d1, end, p, r, a);
    }
  }

  lemma SourceOf(w: View, dest: nat, src: nat, end: nat, a: Arrival) returns (p: nat, r: MemRec)
    requires IsCopy(w, dest, src, end, a)
    ensures IsSource(w, src, end, p, r) && a == Shifted(dest, src, p, r)
  {
    p, r :| IsSource(w, src, end, p, r) && a == Shifted(dest, src, p, r);
  }

  lemma CopyOf(w: View, dest: nat, src: nat, end: nat, p: nat, r: MemRec, a: Arrival)
    requires IsSource(w, src, end, p, r) && a == Shifted(dest, src, p, r)
    ensures IsCopy(w, dest, src, end, a)
  {
  }

  lemma SourceIs(w: View, src: nat, end: nat, p: nat, r: MemRec)
    ensures IsSource(w, src, end, p, r)
       <==> PageNum(src) <= p < end && r in Recs(w, p) && GetAddr(p, r.pageOffset) >= src
  {
  }

  lemma IndexOf(cs: seq<Copy>, p: nat, r: MemRec) returns (i: nat)
    requires IsOne(cs, p, r)
    ensures i < |cs| && cs[i].a.Page() == p && cs[i].a.Rec() == r
  {
    i :| 0 <= i < |cs| && cs[i].a.Page() == p && cs[i].a.Rec() == r;
  }

  lemma OneOf(cs: seq<Copy>, i: nat)
    requires i < |cs|
    ensures IsOne(cs, cs[i].a.Page(), cs[i].a.Rec())
  {
  }

  lemma ManyAre(cs: seq<Copy>, d1: nat, d2: nat)
    requires forall i :: 0 <= i < |cs| ==> cs[i].a.dest >= d1
    ensures |Arrivals(Shift(cs, d1, d2))| == |cs|
  {
  }

  /** Two ascending sequences with the same members are one. */
  lemma {:induction false} SameMembers(s: seq<Arrival>, t: seq<Arrival>)
    requires AscendingDests(s) && AscendingDests(t) && forall a :: a in s <==> a in t
    ensures s == t
    decreases |s|
  {
    hide *;
    if s == [] {
      if t != [] { HasMember(t); }
    } else {
      HasMember(s);
      var m, n := |s| - 1, |t| - 1;
      LastIsLast(s, t);
      SameInit(s, t, s[..m], t[..n]);
      SameMembers(s[..m], t[..n]);
      assert s == s[..m] + [s[m]] && t == t[..n] + [t[n]];
    }
  }

  lemma SameInit(s: seq<Arrival>, t: seq<Arrival>, s': seq<Arrival>, t': seq<Arrival>)
    requires AscendingDests(s) && AscendingDests(t) && s != [] && t != [] && s[|s| - 1] == t[|t| - 1]
    requires forall a :: a in s <==> a in t
    requires s' == s[..|s| - 1] && t' == t[..|t| - 1]
    ensures AscendingDests(s') && AscendingDests(t') && forall a :: a in s' <==> a in t'
  {
    hide *;
    AllButLast(s, s[|s| - 1]);
    AllButLast(t, t[|t| - 1]);
    forall a
      ensures a in s' <==> a in t'
    {
      AllButLast(s, a);
      AllButLast(t, a);
    }
  }

  lemma HasMember(s: seq<Arrival>)
    requires s != []
    ensures exists a :: a in s
  {
    assert s[0] in s;
  }

  lemma AllButLast(s: seq<Arrival>, a: Arrival)
    requires s != [] && AscendingDests(s)
    ensures a in s[..|s| - 1] <==> a in s && a != s[|s| - 1]
    ensures AscendingDests(s[..|s| - 1])
  {
    var n := |s| - 1;
    assert s == s[..n] + [s[n]];
    if a in s[..n] {
      var i :| 0 <= i < n && s[..n][i] == a;
      assert s[i].dest < s[n].dest;
    }
  }

  lemma LastIsLast(s: seq<Arrival>, t: seq<Arrival>)
    requires AscendingDests(s) && AscendingDests(t) && s != [] && t != [] && forall a :: a in s <==> a in t
    ensures s[|s| - 1] == t[|t| - 1]
  {
    var m, n := |s| - 1, |t| - 1;
    assert s[m] in t && t[n] in s;
    var i :| 0 <= i <= n && t[i] == s[m];
    var j :| 0 <= j <= m && s[j] == t[n];
  }

  lemma ShiftInRow(e: Env, cs: seq<Copy>, d1: nat, d2: nat)
    requires InRow(e, cs) && forall i :: 0 <= i < |cs| ==> cs[i].a.dest >= d1
    ensures InRow(e, Shift(cs, d1, d2))
  {
    forall i | 0 <= i < |cs|
      ensures Shift(cs, d1, d2)[i].from == FileAddress(e, Shift(cs, d1, d2)[i].a.Rec())
    {
      SameFileByte(e, cs[i].a.Rec(), Shift(cs, d1, d2)[i].a.Rec());
    }
    hide FileAddress;
  }

  lemma SameFileByte(e: Env, r: MemRec, x: MemRec)
    requires x.fileOffset == r.fileOffset && x.fileName == r.fileName
    ensures FileAddress(e, x) == FileAddress(e, r)
  {
  }

  /** The insertions of the move are those of the copies, all moved by the same distance. */
  lemma RunIsMoved(e: Env, v: View, cs: seq<Copy>, d1: nat, d2: nat, n: nat)
    requires InRow(e, cs) && InBytes(v, cs, d1, n) && Separate(d2, d1, n) && WellFormed(v)
    ensures MemcpyTraced(InsertAll(v, Arrivals(cs)), d2, d1, n)
      == InsertAll(Truncated(InsertAll(v, Arrivals(cs)), d1), Arrivals(Shift(cs, d1, d2)))
  {
    hide *;
    var w := InsertAll(v, Arrivals(cs));
    InBytesIs(v, cs, d1, n);
    InsertAllKeepsWellFormed(v, Arrivals(cs));
    var s, t := Copies(w, d2, d1, PageNum(d1 + n) + 1), Arrivals(Shift(cs, d1, d2));
    CopiesAscend(w, d2, d1, n, PageNum(d1 + n) + 1);
    ShiftInRow(e, cs, d1, d2);
    DestsAscend(e, Shift(cs, d1, d2));
    forall a
      ensures a in s <==> a in t
    {
      MovedAre(e, v, cs, d1, d2, n, a);
    }
    SameMembers(s, t);
    MoveIs(w, d2, d1, n);
  }

  lemma InBytesIs(v: View, cs: seq<Copy>, buf: nat, n: nat)
    ensures InBytes(v, cs, buf, n)
       <==> (forall i :: 0 <= i < |cs| ==> buf <= cs[i].a.dest <= buf + n) && OldInFront(v, buf, buf + n)
  {
  }

  lemma MoveIs(w: View, dest: nat, src: nat, n: nat)
    ensures MemcpyTraced(w, dest, src, n) == InsertAll(Truncated(w, src), Copies(w, dest, src, PageNum(src + n) + 1))
  {
  }

  // ---- The write ----------------------------------------------------------------------------------

  /** The copies have left nothing on the pages they are moved to. */
  lemma DestPageBefore(e: Env, v: View, cs: seq<Copy>, d1: nat, d2: nat, n: nat, q: nat)
    requires InRow(e, cs) && InBytes(v, cs, d1, n) && Separate(d2, d1, n)
    requires PageNum(d2) <= q <= PageNum(d2 + n)
    ensures Recs(Truncated(InsertAll(v, Arrivals(cs)), d1), q) == Recs(v, q)
  {
    hide InRow, WellFormed, OldInFront, From, FileAddress;
    PagesApart(d1, d2, n, q);
    forall a | a in Arrivals(cs)
      ensures a.Page() != q
    {
      var i :| 0 <= i < |cs| && Arrivals(cs)[i] == a;
      assert d1 <= cs[i].a.dest <= d1 + n;
    }
    InsertAllElsewhere(v, Arrivals(cs), q);
    hide InsertAll;
  }

  lemma PagesApart(d1: nat, d2: nat, n: nat, q: nat)
    requires Separate(d2, d1, n) && PageNum(d2) <= q <= PageNum(d2 + n)
    ensures q != PageNum(d1)
    ensures forall x: nat :: d1 <= x <= d1 + n ==> PageNum(x) != q
  {
    assert PageNum(d2 + n) <= LastDestPage(d2, d1, n);
    assert forall x: nat :: d1 <= x <= d1 + n ==> PageNum(d1) <= PageNum(x) <= PageNum(d1 + n);
  }

  lemma OldStaysInFront(e: Env, v: View, cs: seq<Copy>, d1: nat, d2: nat, n: nat)
    requires InRow(e, cs) && InBytes(v, cs, d1, n) && Separate(d2, d1, n) && OldInFront(v, d2, d2 + n)
    ensures OldInFront(Truncated(InsertAll(v, Arrivals(cs)), d1), d2, d2 + n)
  {
    hide InRow, InBytes, Separate, Truncated, InsertAll;
    var w := Truncated(InsertAll(v, Arrivals(cs)), d1);
    forall p | PageNum(d2) <= p <= PageNum(d2 + n)
      ensures Recs(w, p) == Recs(v, p)
    {
      DestPageBefore(e, v, cs, d1, d2, n, p);
    }
  }

  /** Records of any number of copies, moved together by one ts_memcpy_traced and written from their new
      place: the count is what looking from copy to copy adds up to there, each copy still leading to the
      same file bytes as before. */
  lemma MovedRunCounts(e: Env, v: View, cs: seq<Copy>, d1: nat, d2: nat, n: nat)
    requires InRow(e, cs) && InBytes(v, cs, d1, n) && Separate(d2, d1, n) && WellFormed(v)
    requires OldInFront(v, d2, d2 + n)
    ensures forall i :: 0 <= i < |cs| ==> cs[i].a.dest >= d1
    ensures Total(Fwrite(e, MemcpyTraced(InsertAll(v, Arrivals(cs)), d2, d1, n), d2, n).hits)
         == LookAll(e, d2 + n, Shift(cs, d1, d2), |cs|).count
  {
    hide *;
    var w := InsertAll(v, Arrivals(cs));
    InBytesIs(v, cs, d1, n);
    RunIsMoved(e, v, cs, d1, d2, n);
    InsertAllKeepsWellFormed(v, Arrivals(cs));
    TruncatedWellFormed(w, d1);
    OldStaysInFront(e, v, cs, d1, d2, n);
    ShiftInRow(e, cs, d1, d2);
    ShiftStarts(e, cs, d1, d2);
    RunOfCopies(e, Truncated(w, d1), Shift(cs, d1, d2), d2, n);
  }

  lemma ShiftStarts(e: Env, cs: seq<Copy>, d1: nat, d2: nat)
    requires InRow(e, cs) && forall i :: 0 <= i < |cs| ==> cs[i].a.dest >= d1
    ensures |Shift(cs, d1, d2)| == |cs| > 0 && Shift(cs, d1, d2)[0].a.dest == d2 + (cs[0].a.dest - d1)
  {
  }

  lemma ShiftSideBySide(cs: seq<Copy>, d1: nat, d2: nat)
    requires cs != [] && SideBySide(cs) && forall i :: 0 <= i < |cs| ==> cs[i].a.dest >= d1
    ensures SideBySide(Shift(cs, d1, d2)) && End(Shift(cs, d1, d2)) == d2 + (End(cs) - d1)
    ensures |Shift(cs, d1, d2)| == |cs| && Shift(cs, d1, d2)[0].a.dest == d2 + (cs[0].a.dest - d1)
  {
  }

  lemma SideBySideInside(v: View, cs: seq<Copy>)
    requires cs != [] && SideBySide(cs) && OldInFront(v, cs[0].a.dest, End(cs))
    ensures End(cs) >= cs[0].a.dest && InBytes(v, cs, cs[0].a.dest, End(cs) - cs[0].a.dest)
  {
    hide OldInFront;
    EndsAscend(cs, 0, |cs| - 1);
    forall i | 0 <= i < |cs|
      ensures cs[0].a.dest <= cs[i].a.dest <= End(cs)
    {
      EndsAscend(cs, 0, i);
      EndsAscend(cs, i, |cs| - 1);
    }
  }

  /** Copies side by side, moved together and written: every byte counts when at the new place every
      comparison ends where its copy ends and every copy starts on the page of the one before or at the
      start of a page. */
  lemma MovedRunAllCounts(e: Env, v: View, cs: seq<Copy>, d2: nat)
    requires InRow(e, cs) && SideBySide(cs) && WellFormed(v) && OldInFront(v, cs[0].a.dest, End(cs))
    requires End(cs) >= cs[0].a.dest && Separate(d2, cs[0].a.dest, End(cs) - cs[0].a.dest)
    requires OldInFront(v, d2, d2 + (End(cs) - cs[0].a.dest))
    requires forall i :: 0 <= i < |cs| ==> cs[i].a.dest >= cs[0].a.dest
    requires StopsAtSeams(e, Shift(cs, cs[0].a.dest, d2))
    ensures var d1, n := cs[0].a.dest, End(cs) - cs[0].a.dest;
      Total(Fwrite(e, MemcpyTraced(InsertAll(v, Arrivals(cs)), d2, d1, n), d2, n).hits) == n
  {
    hide *;
    InRowIs(e, cs);
    var d1, n := cs[0].a.dest, End(cs) - cs[0].a.dest;
    SideBySideInside(v, cs);
    MovedRunCounts(e, v, cs, d1, d2, n);
    ShiftSideBySide(cs, d1, d2);
    var t := Shift(cs, d1, d2);
    LooksAtAll(e, t, |cs|);
    EndIs(t);
  }
}
