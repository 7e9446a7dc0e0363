/** What ts_fwrite computes: which bytes of the buffer it counts as duplicates of mapped files,
    and which pages it does not find. Records are looked at in the order the pages hold them; the
    blocks they are stored in play no part. */
module MatchSpec {
  import opened Addr
  import opened Avx2
  import opened Bst
  import opened FileMaps
  import opened Memory
  import opened TraceSpec

  /** The two builds: the byte loop and the AVX2 comparer. */
  datatype Comparer = ByteLoop | Avx2Asm

  datatype Env = Env(mem: Mem, names: Tree<FileMap>, comparer: Comparer)

  /** One comparison: len bytes from `at` on counted as equal to those from `from` on. */
  datatype Hit = Hit(at: nat, len: nat, from: nat)

  datatype Scan = Scan(diffPos: nat, hits: seq<Hit>, notFound: int)

  /** Conversion of an unsigned long to int. */
  function ToInt32(x: int): int {
    var r := x % 0x1_0000_0000;
    if r < 0x8000_0000 then r else r - 0x1_0000_0000
  }

  /** The record of ts_memcpy(dest, src, n) and of ts_memcpy_withFile, for a source in mapping m. */
  function CopyRecord(m: FileMap, dest: nat, src: nat): Arrival {
    Arrival(dest, U64(m.offset + src - m.start), m.fileName, m.fd)
  }

  /** How many bytes the comparer lets the caller count. */
  function PrefixLen(e: Env, at: nat, from: nat, n: nat): (k: nat)
    ensures k <= CommonPrefix(e.mem, at, from, n)
  {
    if e.comparer.ByteLoop? then CommonPrefix(e.mem, at, from, n) else Counted(e.mem, at, from, n)
  }

  /** The 2-3 byte path of the AVX2 comparer reports a difference for equal ranges. */
  predicate Alarm(e: Env, dest: nat, src: nat, n: nat) {
    e.comparer.Avx2Asm? && FalseAlarm(e.mem, dest, src, n)
  }

  lemma AlarmIsShort(e: Env, dest: nat, src: nat, n: nat)
    ensures Alarm(e, dest, src, n) ==> n == 2 || n == 3
  {
  }

  lemma NoAlarm(e: Env, dest: nat, src: nat, n: nat)
    ensures e.comparer.ByteLoop? || (n != 2 && n != 3) ==> !Alarm(e, dest, src, n)
  {
  }

  /** The file address a record points at, when its file is mapped from its offset or before. */
  function FileAddress(e: Env, r: MemRec): Option<nat> {
    match FindName(e.names, r.fileName)
    case None => None
    case Some(m) => if m.offset <= r.fileOffset then Some(U64(m.start + r.fileOffset - m.offset)) else None
  }

  /** cmpWrite */
  function CmpWrite(e: Env, at: nat, r: MemRec, tail: nat): Option<Hit>
    requires at <= tail
  {
    match FileAddress(e, r)
    case None => None
    case Some(from) => Some(Hit(at, PrefixLen(e, at, from, tail - at), from))
  }

  /** cmpWrite, case by case. */
  lemma CmpWriteCases(e: Env, at: nat, r: MemRec, tail: nat)
    requires at <= tail
    ensures var m := FindName(e.names, r.fileName);
      CmpWrite(e, at, r, tail) ==
        if m.None? || m.value.offset > r.fileOffset then None
        else
          var from := U64(m.value.start + r.fileOffset - m.value.offset);
          Some(Hit(at, PrefixLen(e, at, from, tail - at), from))
  {
    hide FindName, PrefixLen, U64;
  }

  /** A record is compared when it starts in the part of the buffer not dealt with yet. */
  predicate Applies(at: nat, buf: nat, tail: nat, diffPos: nat) {
    buf <= at <= tail && diffPos <= at
  }

  function StepRec(e: Env, buf: nat, tail: nat, page: nat, r: MemRec, s: Scan): Scan {
    var at := GetAddr(page, r.pageOffset);
    if !Applies(at, buf, tail, s.diffPos) then s
    else
      match CmpWrite(e, at, r, tail)
      case None => s
      case Some(h) => Scan(at + h.len, s.hits + [h], s.notFound)
  }

  /** The records of one page, from index k on. */
  function ScanPage(e: Env, buf: nat, tail: nat, page: nat, recs: seq<MemRec>, k: nat, s: Scan): Scan
    requires k <= |recs|
    decreases |recs| - k
  {
    if k == |recs| then s else ScanPage(e, buf, tail, page, recs, k + 1, StepRec(e, buf, tail, page, recs[k], s))
  }

  /** The length booked for a page that is not traced. */
  function NotFoundLen(tail: nat, page: nat): int {
    var toTail := ToInt32(tail - GetAddr(page, 0));
    if PAGE_SIZE < toTail then PAGE_SIZE else toTail
  }

  function VisitPage(e: Env, v: View, buf: nat, tail: nat, page: nat, s: Scan): Scan {
    if GetAddr(page, 0) < s.diffPos then s
    else if page in v then ScanPage(e, buf, tail, page, v[page], 0, s)
    else s.(notFound := s.notFound + NotFoundLen(tail, page))
  }

  /** The pages from `page` to the one the tail is in. */
  function ScanPages(e: Env, v: View, buf: nat, tail: nat, page: nat, s: Scan): Scan
    decreases PageNum(tail) + 1 - page
  {
    if page > PageNum(tail) then s else ScanPages(e, v, buf, tail, page + 1, VisitPage(e, v, buf, tail, page, s))
  }

  /** ts_fwrite of length bytes from buf. */
  function Fwrite(e: Env, v: View, buf: nat, length: nat): Scan {
    ScanPages(e, v, buf, buf + length, PageNum(buf), Scan(0, [], 0))
  }

  /** What is added to ts_write_same_size. */
  function Total(hits: seq<Hit>): nat {
    if hits == [] then 0 else Total(hits[..|hits| - 1]) + hits[|hits| - 1].len
  }

  /** Records that do not apply are passed over. */
  lemma {:induction false} PassOver(e: Env, buf: nat, tail: nat, page: nat, recs: seq<MemRec>, k: nat, k': nat, s: Scan)
    requires k <= k' <= |recs|
    requires forall j :: k <= j < k' ==> !Applies(GetAddr(page, recs[j].pageOffset), buf, tail, s.diffPos)
    ensures ScanPage(e, buf, tail, page, recs, k, s) == ScanPage(e, buf, tail, page, recs, k', s)
    decreases k' - k
  {
    if k < k' {
      PassOver(e, buf, tail, page, recs, k + 1, k', s);
    }
  }

  /** In an ascending page, nothing applies from the first record behind the tail on. */
  lemma PassOverBehind(e: Env, buf: nat, tail: nat, page: nat, recs: seq<MemRec>, k: nat, k': nat, s: Scan)
    requires Ascending(recs) && k < k' <= |recs| && GetAddr(page, recs[k].pageOffset) > tail
    ensures ScanPage(e, buf, tail, page, recs, k, s) == ScanPage(e, buf, tail, page, recs, k', s)
  {
    forall j | k <= j < k'
      ensures !Applies(GetAddr(page, recs[j].pageOffset), buf, tail, s.diffPos)
    {
      assert k < j ==> recs[k].pageOffset < recs[j].pageOffset;
    }
    PassOver(e, buf, tail, page, recs, k, k', s);
  }

  lemma ScanEnd(e: Env, buf: nat, tail: nat, page: nat, recs: seq<MemRec>, s: Scan)
    ensures ScanPage(e, buf, tail, page, recs, |recs|, s) == s
  {
  }

  lemma ScanStep(e: Env, buf: nat, tail: nat, page: nat, recs: seq<MemRec>, k: nat, s: Scan)
    requires k < |recs|
    ensures ScanPage(e, buf, tail, page, recs, k, s)
         == ScanPage(e, buf, tail, page, recs, k + 1, StepRec(e, buf, tail, page, recs[k], s))
  {
  }

  lemma TotalOfOneMore(hits: seq<Hit>, h: Hit)
    ensures Total(hits + [h]) == Total(hits) + h.len
  {
    assert (hits + [h])[..|hits|] == hits;
  }

  // ---- Every counted byte is counted once, and equals the byte it is compared with ---------------

  /** A comparison inside [buf, tail] that counted equal bytes only, as far as the comparer goes. */
  ghost predicate GoodHit(e: Env, v: View, buf: nat, tail: nat, h: Hit) {
    && buf <= h.at && h.at + h.len <= tail
    && Same(e.mem, h.at, h.from, h.len) && h.len == PrefixLen(e, h.at, h.from, tail - h.at)
    && exists r :: r in Recs(v, PageNum(h.at)) && r.pageOffset == PageOffset(h.at) && FileAddress(e, r) == Some(h.from)
  }

  /** The ranges counted are disjoint and ascending, and end at or before diffPos. */
  ghost predicate InOrderHits(s: Scan) {
    && (forall i :: 0 <= i < |s.hits| ==> s.hits[i].at + s.hits[i].len <= s.diffPos)
    && (forall i, j :: 0 <= i < j < |s.hits| ==> s.hits[i].at + s.hits[i].len <= s.hits[j].at)
  }

  ghost predicate Sound(e: Env, v: View, buf: nat, tail: nat, s: Scan) {
    InOrderHits(s) && forall h :: h in s.hits ==> GoodHit(e, v, buf, tail, h)
  }

  lemma StepSound(e: Env, v: View, buf: nat, tail: nat, page: nat, r: MemRec, s: Scan)
    requires Sound(e, v, buf, tail, s) && r in Recs(v, page) && r.pageOffset < PAGE_SIZE
    ensures Sound(e, v, buf, tail, StepRec(e, buf, tail, page, r, s))
  {
    var at := GetAddr(page, r.pageOffset);
    if Applies(at, buf, tail, s.diffPos) && CmpWrite(e, at, r, tail).Some? {
      var h := CmpWrite(e, at, r, tail).value;
      assert PageNum(at) == page && PageOffset(at) == r.pageOffset;
      assert GoodHit(e, v, buf, tail, h);
    }
  }

  lemma {:induction false} PageSound(e: Env, v: View, buf: nat, tail: nat, page: nat, k: nat, s: Scan)
    requires Sound(e, v, buf, tail, s) && page in v && k <= |v[page]| && InPage(v[page])
    ensures Sound(e, v, buf, tail, ScanPage(e, buf, tail, page, v[page], k, s))
    decreases |v[page]| - k
  {
    if k < |v[page]| {
      StepSound(e, v, buf, tail, page, v[page][k], s);
      PageSound(e, v, buf, tail, page, k + 1, StepRec(e, buf, tail, page, v[page][k], s));
    }
  }

  lemma {:induction false} PagesSound(e: Env, v: View, buf: nat, tail: nat, page: nat, s: Scan)
    requires WellFormed(v) && Sound(e, v, buf, tail, s)
    ensures Sound(e, v, buf, tail, ScanPages(e, v, buf, tail, page, s))
    decreases PageNum(tail) + 1 - page
  {
    if page <= PageNum(tail) {
      if page in v { PageSound(e, v, buf, tail, page, 0, s); }
      PagesSound(e, v, buf, tail, page + 1, VisitPage(e, v, buf, tail, page, s));
    }
  }

  lemma {:induction false} TotalWithin(e: Env, v: View, buf: nat, tail: nat, s: Scan)
    requires Sound(e, v, buf, tail, s) && buf <= tail
    ensures buf + Total(s.hits) <= tail
    ensures s.hits != [] ==> buf + Total(s.hits) <= s.hits[|s.hits| - 1].at + s.hits[|s.hits| - 1].len
    decreases |s.hits|
  {
    if s.hits != [] {
      var n := |s.hits| - 1;
      var h := s.hits[n];
      assert GoodHit(e, v, buf, tail, h);
      TotalWithin(e, v, buf, tail, Scan(s.diffPos, s.hits[..n], s.notFound));
      if n > 0 {
        assert s.hits[n - 1].at + s.hits[n - 1].len <= h.at;
      }
    }
  }

  /** Main result on one write, for every trace a run can leave: the ranges counted as same are
      disjoint, ascending and inside the buffer; every counted byte equals the byte of memory that the
      file address of a record leads to; so one write adds at most its length. */
  lemma FwriteSound(e: Env, v: View, buf: nat, length: nat)
    requires WellFormed(v)
    ensures Sound(e, v, buf, buf + length, Fwrite(e, v, buf, length))
    ensures Total(Fwrite(e, v, buf, length).hits) <= length
  {
    PagesSound(e, v, buf, buf + length, PageNum(buf), Scan(0, [], 0));
    TotalWithin(e, v, buf, buf + length, Fwrite(e, v, buf, length));
  }
}
