/** The index of the BASE_VERSION build: one search tree of disjoint half-open memory ranges,
    ordered by start address but searched with interval comparators. */
module BaseIndex {
  import opened Bst

  datatype MemRec = MemRec(startMemory: nat, tailMemory: nat, fileName: nat, fileOffset: nat)

  const LOWEST_MEMORY := 343596402010
  const FILE_OFFSET_LIMIT := 100000000000002

  /** assertRec */
  predicate AssertRec(r: MemRec) {
    LOWEST_MEMORY < r.startMemory < r.tailMemory && r.fileOffset < FILE_OFFSET_LIMIT && r.fileName != 0
  }

  // ---- Comparators ------------------------------------------------------------------------

  function RecCompare(a: MemRec, b: MemRec): int {
    if a.startMemory < b.startMemory then -1 else if a.startMemory > b.startMemory then 1 else 0
  }

  function OverlapRec(a: MemRec, b: MemRec): int {
    if a.startMemory > b.startMemory && a.startMemory >= b.tailMemory then 1
    else if a.startMemory < b.startMemory && a.tailMemory <= b.startMemory then -1
    else 0
  }

  function OverlapRecBegBigger(a: MemRec, b: MemRec): int {
    if a.startMemory > b.startMemory then 1
    else if a.startMemory < b.startMemory && a.tailMemory < b.startMemory then -1
    else 0
  }

  /** The half-open range [lo, hi) shares an address with the record. */
  predicate Intersects(r: MemRec, lo: int, hi: int) {
    lo < r.tailMemory && r.startMemory < hi
  }

  /** The record starts in the closed range [lo, hi]. */
  predicate StartsIn(r: MemRec, lo: int, hi: int) {
    lo <= r.startMemory <= hi
  }

  /** A listing of pairwise disjoint, non-empty ranges in address order. */
  ghost predicate DisjointAscending(s: seq<MemRec>) {
    && (forall r :: r in s ==> AssertRec(r))
    && (forall i, j :: 0 <= i < j < |s| ==> s[i].tailMemory <= s[j].startMemory)
  }

  lemma StartsAscend(s: seq<MemRec>, i: nat, j: nat)
    requires DisjointAscending(s) && i < j < |s|
    ensures s[i].startMemory < s[i].tailMemory <= s[j].startMemory < s[j].tailMemory
  {
    assert AssertRec(s[i]) && AssertRec(s[j]);
  }

  lemma OverlapDescends(s: seq<MemRec>, a: MemRec)
    requires DisjointAscending(s) && a.startMemory < a.tailMemory
    ensures Descends(s, a, OverlapRec)
    ensures forall i :: 0 <= i < |s| ==>
      (OverlapRec(a, s[i]) == 0 <==> Intersects(s[i], a.startMemory, a.tailMemory))
  {
    forall i, j | 0 <= i < j < |s|
      ensures OverlapRec(a, s[i]) < 0 ==> OverlapRec(a, s[j]) < 0
      ensures OverlapRec(a, s[j]) > 0 ==> OverlapRec(a, s[i]) > 0
    {
      StartsAscend(s, i, j);
    }
    assert forall i :: 0 <= i < |s| ==> AssertRec(s[i]);
  }

  /** A search with overlapRec succeeds exactly when some record intersects the query. */
  lemma OverlapFindComplete(t: Tree<MemRec>, a: MemRec)
    requires DisjointAscending(InOrder(t)) && a.startMemory < a.tailMemory
    ensures TFind(t, a, OverlapRec).Some? <==>
      exists r :: r in InOrder(t) && Intersects(r, a.startMemory, a.tailMemory)
    ensures TFind(t, a, OverlapRec).Some? ==>
      Intersects(TFind(t, a, OverlapRec).value, a.startMemory, a.tailMemory)
  {
    OverlapDescends(InOrder(t), a);
    TFindComplete(t, a, OverlapRec);
    if TFind(t, a, OverlapRec).Some? { TFindSound(t, a, OverlapRec); }
  }

  lemma BegBiggerDescends(s: seq<MemRec>, a: MemRec)
    requires DisjointAscending(s) && a.startMemory <= a.tailMemory
    ensures Descends(s, a, OverlapRecBegBigger)
  {
    forall i, j | 0 <= i < j < |s|
      ensures OverlapRecBegBigger(a, s[i]) < 0 ==> OverlapRecBegBigger(a, s[j]) < 0
      ensures OverlapRecBegBigger(a, s[j]) > 0 ==> OverlapRecBegBigger(a, s[i]) > 0
    {
      StartsAscend(s, i, j);
    }
  }

  /** A search with overlapRecBegBigger succeeds exactly when some record starts in the closed
      query range. */
  lemma BegBiggerFindComplete(t: Tree<MemRec>, a: MemRec)
    requires DisjointAscending(InOrder(t)) && a.startMemory <= a.tailMemory
    ensures TFind(t, a, OverlapRecBegBigger).Some? <==>
      exists r :: r in InOrder(t) && StartsIn(r, a.startMemory, a.tailMemory)
    ensures TFind(t, a, OverlapRecBegBigger).Some? ==>
      StartsIn(TFind(t, a, OverlapRecBegBigger).value, a.startMemory, a.tailMemory)
  {
    var s := InOrder(t);
    BegBiggerDescends(s, a);
    TFindComplete(t, a, OverlapRecBegBigger);
    if TFind(t, a, OverlapRecBegBigger).Some? { TFindSound(t, a, OverlapRecBegBigger); }
    assert forall i :: 0 <= i < |s| ==>
      (OverlapRecBegBigger(a, s[i]) == 0 <==> StartsIn(s[i], a.startMemory, a.tailMemory));
  }

  lemma RecCompareDescends(s: seq<MemRec>, a: MemRec)
    requires DisjointAscending(s)
    ensures Descends(s, a, RecCompare)
  {
    forall i, j | 0 <= i < j < |s|
      ensures RecCompare(a, s[i]) < 0 ==> RecCompare(a, s[j]) < 0
      ensures RecCompare(a, s[j]) > 0 ==> RecCompare(a, s[i]) > 0
    {
      StartsAscend(s, i, j);
    }
  }

  // ---- What deletion and insertion mean ---------------------------------------------------

  /** The records that do not intersect [lo, hi), in order. */
  function Without(s: seq<MemRec>, lo: int, hi: int): seq<MemRec> {
    if s == [] then []
    else (if Intersects(s[0], lo, hi) then [] else [s[0]]) + Without(s[1..], lo, hi)
  }

  lemma {:induction false} WithoutMembers(s: seq<MemRec>, lo: int, hi: int, r: MemRec)
    ensures r in Without(s, lo, hi) <==> r in s && !Intersects(r, lo, hi)
  {
    if s != [] { WithoutMembers(s[1..], lo, hi, r); }
  }

  lemma {:induction false} WithoutIgnores(s: seq<MemRec>, i: nat, lo: int, hi: int)
    requires i < |s| && Intersects(s[i], lo, hi)
    ensures Without(RemoveAt(s, i), lo, hi) == Without(s, lo, hi)
  {
    if i == 0 {
      assert RemoveAt(s, 0) == s[1..];
    } else {
      WithoutIgnores(s[1..], i - 1, lo, hi);
      assert RemoveAt(s, i)[1..] == RemoveAt(s[1..], i - 1);
      assert RemoveAt(s, i)[0] == s[0];
    }
  }

  lemma {:induction false} WithoutNothing(s: seq<MemRec>, lo: int, hi: int)
    requires forall r :: r in s ==> !Intersects(r, lo, hi)
    ensures Without(s, lo, hi) == s
  {
    if s != [] { WithoutNothing(s[1..], lo, hi); }
  }

  lemma RemoveKeepsDisjoint(s: seq<MemRec>, i: nat)
    requires DisjointAscending(s) && i < |s|
    ensures DisjointAscending(RemoveAt(s, i))
    ensures forall r :: r in RemoveAt(s, i) <==> r in s && r != s[i]
  {
    var t := RemoveAt(s, i);
    assert forall j :: 0 <= j < |t| ==> t[j] == s[if j < i then j else j + 1];
    forall j | 0 <= j < |s| && j != i
      ensures s[j] in t && s[j] != s[i]
    {
      assert t[if j < i then j else j - 1] == s[j];
      if j < i { StartsAscend(s, j, i); } else { StartsAscend(s, i, j); }
    }
  }

  /** The new record goes between its neighbours. */
  lemma CutSeparates(s: seq<MemRec>, i: nat, a: MemRec)
    requires DisjointAscending(s) && a.startMemory < a.tailMemory
    requires forall r :: r in s ==> !Intersects(r, a.startMemory, a.tailMemory)
    requires CutAt(s, a, RecCompare, i)
    ensures forall j :: 0 <= j < i ==> s[j].tailMemory <= a.startMemory
    ensures forall j :: i <= j < |s| ==> a.tailMemory <= s[j].startMemory
  {
    forall j | 0 <= j < |s|
      ensures if j < i then s[j].tailMemory <= a.startMemory else a.tailMemory <= s[j].startMemory
    {
      assert AssertRec(s[j]) && !Intersects(s[j], a.startMemory, a.tailMemory);
      assert j < i <==> RecCompare(a, s[j]) > 0;
    }
  }

  lemma InsertAtMembers(s: seq<MemRec>, i: nat, a: MemRec)
    requires i <= |s|
    ensures forall r :: r in InsertAt(s, i, a) <==> r == a || r in s
  {
    assert s == s[..i] + s[i..];
  }

  lemma InsertKeepsDisjoint(s: seq<MemRec>, i: nat, a: MemRec)
    requires DisjointAscending(s) && AssertRec(a)
    requires forall r :: r in s ==> !Intersects(r, a.startMemory, a.tailMemory)
    requires CutAt(s, a, RecCompare, i)
    ensures DisjointAscending(InsertAt(s, i, a))
    ensures forall r :: r in InsertAt(s, i, a) <==> r == a || r in s
  {
    CutSeparates(s, i, a);
    InsertAtMembers(s, i, a);
    var t := InsertAt(s, i, a);
    assert forall j :: 0 <= j < |t| ==> t[j] == if j < i then s[j] else if j == i then a else s[j - 1];
  }

  /** A record that starts where another does, intersects it. */
  lemma NoEqualStart(s: seq<MemRec>, a: MemRec)
    requires DisjointAscending(s) && a.startMemory < a.tailMemory
    requires forall r :: r in s ==> !Intersects(r, a.startMemory, a.tailMemory)
    ensures !Hits(s, a, RecCompare)
  {
    forall i | 0 <= i < |s|
      ensures RecCompare(a, s[i]) != 0
    {
      assert AssertRec(s[i]) && !Intersects(s[i], a.startMemory, a.tailMemory);
    }
  }

  /** The file byte the index holds for address x. */
  ghost predicate Maps(s: seq<MemRec>, x: int, name: nat, off: int) {
    exists r :: r in s && Covers(r, x, name, off)
  }

  ghost predicate Covers(r: MemRec, x: int, name: nat, off: int) {
    r.startMemory <= x < r.tailMemory && r.fileName == name && off == r.fileOffset + (x - r.startMemory)
  }

  /** An address has at most one file byte. */
  lemma MapsFunctional(s: seq<MemRec>, x: int, n1: nat, o1: int, n2: nat, o2: int)
    requires DisjointAscending(s) && Maps(s, x, n1, o1) && Maps(s, x, n2, o2)
    ensures n1 == n2 && o1 == o2
  {
    var r1 :| r1 in s && Covers(r1, x, n1, o1);
    var r2 :| r2 in s && Covers(r2, x, n2, o2);
    var i :| 0 <= i < |s| && s[i] == r1;
    var j :| 0 <= j < |s| && s[j] == r2;
    assert !(i < j) && !(j < i);
  }

  function SetOf(s: seq<MemRec>): set<MemRec> {
    set r | r in s
  }

  datatype FileByte = FileByte(fileName: nat, offset: int)

  /** The record that has address x. */
  function Owner(s: seq<MemRec>, x: int): Option<MemRec> {
    if s == [] then None
    else if s[0].startMemory <= x < s[0].tailMemory then Some(s[0])
    else Owner(s[1..], x)
  }

  /** The file byte that address x was copied from. */
  function Lookup(s: seq<MemRec>, x: int): Option<FileByte> {
    match Owner(s, x)
    case None => None
    case Some(r) => Some(FileByte(r.fileName, r.fileOffset + (x - r.startMemory)))
  }

  lemma {:induction false} OwnerIs(s: seq<MemRec>, x: int)
    ensures Owner(s, x).Some? ==>
      Owner(s, x).value in s && Owner(s, x).value.startMemory <= x < Owner(s, x).value.tailMemory
    ensures Owner(s, x).None? ==> forall r :: r in s ==> !(r.startMemory <= x < r.tailMemory)
  {
    if s != [] {
      OwnerIs(s[1..], x);
      assert s == [s[0]] + s[1..];
    }
  }

  /** In an index of disjoint records, the lookup is the address map. */
  lemma LookupIsMap(s: seq<MemRec>, x: int, b: FileByte)
    requires DisjointAscending(s)
    ensures Lookup(s, x) == Some(b) <==> Maps(s, x, b.fileName, b.offset)
  {
    OwnerIs(s, x);
    if Owner(s, x).Some? {
      var r := Owner(s, x).value;
      assert Covers(r, x, r.fileName, r.fileOffset + (x - r.startMemory));
      if Maps(s, x, b.fileName, b.offset) {
        MapsFunctional(s, x, r.fileName, r.fileOffset + (x - r.startMemory), b.fileName, b.offset);
      }
    }
  }

  /** Two records of an index that have the same address are one. */
  lemma OwnerUnique(s: seq<MemRec>, r: MemRec, x: int)
    requires DisjointAscending(s) && r in s && r.startMemory <= x < r.tailMemory
    ensures Owner(s, x) == Some(r)
  {
    OwnerIs(s, x);
    var i :| 0 <= i < |s| && s[i] == r;
    var j :| 0 <= j < |s| && s[j] == Owner(s, x).value;
    assert !(i < j) && !(j < i);
  }

  /** What an insertion does to the address map: an address in the new range gets its new file byte; any
      other loses its byte if its record was in the way, and keeps it otherwise. */
  function Updated(before: seq<MemRec>, a: MemRec, x: int): Option<FileByte> {
    if a.startMemory <= x < a.tailMemory then Some(FileByte(a.fileName, a.fileOffset + (x - a.startMemory)))
    else
      match Owner(before, x)
      case None => None
      case Some(r) => if Intersects(r, a.startMemory, a.tailMemory) then None else Lookup(before, x)
  }

  lemma InsertUpdatesMap(before: seq<MemRec>, after: seq<MemRec>, a: MemRec, x: int)
    requires DisjointAscending(before) && DisjointAscending(after)
    requires forall r :: r in after <==>
      r == a || (r in before && !Intersects(r, a.startMemory, a.tailMemory))
    ensures Lookup(after, x) == Updated(before, a, x)
  {
    OwnerIs(after, x);
    OwnerIs(before, x);
    if a.startMemory <= x < a.tailMemory {
      OwnerUnique(after, a, x);
    } else if Owner(before, x).Some? && !Intersects(Owner(before, x).value, a.startMemory, a.tailMemory) {
      OwnerUnique(after, Owner(before, x).value, x);
    } else if Owner(after, x).Some? {
      OwnerUnique(before, Owner(after, x).value, x);
    }
  }

  // ---- Weight: why moving records within one tree ends -------------------------------------

  /** How far, in the direction of the move, a record is from leaving the closed range [lo, hi]. */
  function Weight(r: MemRec, lo: int, hi: int, up: bool): nat {
    if !StartsIn(r, lo, hi) then 0
    else if up then hi - r.startMemory + 1
    else r.startMemory - lo + 1
  }

  function TotalWeight(s: seq<MemRec>, lo: int, hi: int, up: bool): nat {
    if s == [] then 0 else Weight(s[0], lo, hi, up) + TotalWeight(s[1..], lo, hi, up)
  }

  lemma {:induction false} WeightRemoved(s: seq<MemRec>, i: nat, lo: int, hi: int, up: bool)
    requires i < |s|
    ensures TotalWeight(RemoveAt(s, i), lo, hi, up) == TotalWeight(s, lo, hi, up) - Weight(s[i], lo, hi, up)
  {
    if i == 0 {
      assert RemoveAt(s, 0) == s[1..];
    } else {
      WeightRemoved(s[1..], i - 1, lo, hi, up);
      assert RemoveAt(s, i)[1..] == RemoveAt(s[1..], i - 1);
      assert RemoveAt(s, i)[0] == s[0];
    }
  }

  lemma WeightInserted(s: seq<MemRec>, i: nat, a: MemRec, lo: int, hi: int, up: bool)
    requires i <= |s|
    ensures TotalWeight(InsertAt(s, i, a), lo, hi, up) == TotalWeight(s, lo, hi, up) + Weight(a, lo, hi, up)
  {
    assert RemoveAt(InsertAt(s, i, a), i) == s;
    WeightRemoved(InsertAt(s, i, a), i, lo, hi, up);
  }

  lemma {:induction false} WeightWithout(s: seq<MemRec>, a: int, b: int, lo: int, hi: int, up: bool)
    ensures TotalWeight(Without(s, a, b), lo, hi, up) <= TotalWeight(s, lo, hi, up)
  {
    if s != [] {
      WeightWithout(s[1..], a, b, lo, hi, up);
      var w := Without(s[1..], a, b);
      assert [] + w == w && ([s[0]] + w)[1..] == w;
    }
  }

  // ---- One step of each loop --------------------------------------------------------------

  /** tdelete after a successful tfind, both with overlapRec. */
  lemma DeleteStep(t: Tree<MemRec>, a: MemRec)
    requires DisjointAscending(InOrder(t)) && a.startMemory < a.tailMemory
    requires TFind(t, a, OverlapRec).Some?
    ensures DisjointAscending(InOrder(TDelete(t, a, OverlapRec)))
    ensures |InOrder(TDelete(t, a, OverlapRec))| < |InOrder(t)|
    ensures Without(InOrder(TDelete(t, a, OverlapRec)), a.startMemory, a.tailMemory)
         == Without(InOrder(t), a.startMemory, a.tailMemory)
  {
    OverlapFindComplete(t, a);
    var i := TDeleteRemovesFound(t, a, OverlapRec);
    WithoutIgnores(InOrder(t), i, a.startMemory, a.tailMemory);
    RemoveKeepsDisjoint(InOrder(t), i);
  }

  /** When the search fails, nothing is left to delete. */
  lemma DeleteDone(t: Tree<MemRec>, a: MemRec)
    requires DisjointAscending(InOrder(t)) && a.startMemory < a.tailMemory
    requires TFind(t, a, OverlapRec).None?
    ensures Without(InOrder(t), a.startMemory, a.tailMemory) == InOrder(t)
  {
    OverlapFindComplete(t, a);
    WithoutNothing(InOrder(t), a.startMemory, a.tailMemory);
  }

  /** Membership after a deletion. */
  lemma WithoutIsFilter(s: seq<MemRec>, lo: int, hi: int)
    ensures forall r :: r in Without(s, lo, hi) <==> r in s && !Intersects(r, lo, hi)
  {
    forall r
      ensures r in Without(s, lo, hi) <==> r in s && !Intersects(r, lo, hi)
    {
      WithoutMembers(s, lo, hi, r);
    }
  }

  /** tdelete after a successful tfind, both with overlapRecBegBigger. */
  lemma TakeStep(t: Tree<MemRec>, a: MemRec, up: bool)
    requires DisjointAscending(InOrder(t)) && a.startMemory <= a.tailMemory
    requires TFind(t, a, OverlapRecBegBigger).Some?
    ensures var b := TFind(t, a, OverlapRecBegBigger).value;
      var s, s' := InOrder(t), InOrder(TDelete(t, a, OverlapRecBegBigger));
      && b in s && AssertRec(b) && StartsIn(b, a.startMemory, a.tailMemory)
      && DisjointAscending(s') && (forall r :: r in s' <==> r in s && r != b)
      && TotalWeight(s', a.startMemory, a.tailMemory, up)
         == TotalWeight(s, a.startMemory, a.tailMemory, up) - Weight(b, a.startMemory, a.tailMemory, up)
  {
    BegBiggerFindComplete(t, a);
    var i := TDeleteRemovesFound(t, a, OverlapRecBegBigger);
    RemoveKeepsDisjoint(InOrder(t), i);
    WeightRemoved(InOrder(t), i, a.startMemory, a.tailMemory, up);
  }

  /** What ts_memcpy_traced makes of a record that starts in the source range. */
  function Moved(b: MemRec, dest: nat, src: nat, n: nat): MemRec
    requires src <= b.startMemory
  {
    var insertDest := dest + (b.startMemory - src);
    var copyTail := if b.tailMemory < src + n then b.tailMemory else src + n;
    MemRec(insertDest, insertDest + if copyTail >= src then copyTail - src else 0, b.fileName, b.fileOffset)
  }

  /** A moved record is nearer to leaving the source range than it was, or has left it. */
  lemma MoveShrinksWeight(taken: seq<MemRec>, at: nat, b: MemRec, dest: nat, src: nat, n: nat)
    requires StartsIn(b, src, src + n) && b.startMemory < b.tailMemory && n > 0 && dest != src
    requires var c := Moved(b, dest, src, n); at <= |Without(taken, c.startMemory, c.tailMemory)|
    ensures var c := Moved(b, dest, src, n);
      TotalWeight(InsertAt(Without(taken, c.startMemory, c.tailMemory), at, c), src, src + n, dest > src)
      < TotalWeight(taken, src, src + n, dest > src) + Weight(b, src, src + n, dest > src)
  {
    var c := Moved(b, dest, src, n);
    WeightWithout(taken, c.startMemory, c.tailMemory, src, src + n, dest > src);
    WeightInserted(Without(taken, c.startMemory, c.tailMemory), at, c, src, src + n, dest > src);
  }

  /** One round on the set of records: b goes, its copy makes room for itself and comes. */
  function MoveStep(s: set<MemRec>, b: MemRec, dest: nat, src: nat, n: nat): set<MemRec>
    requires src <= b.startMemory
  {
    var c := Moved(b, dest, src, n);
    (set r | r in s && r != b && !Intersects(r, c.startMemory, c.tailMemory)) + {c}
  }

  /** The records moved one after the other, each of them present and in the source range when its
      turn comes. */
  ghost predicate InTurn(s: set<MemRec>, order: seq<MemRec>, dest: nat, src: nat, n: nat)
    decreases |order|, 0
  {
    order == []
    || var k := |order| - 1;
       InTurn(s, order[..k], dest, src, n)
       && order[k] in MoveAll(s, order[..k], dest, src, n) && StartsIn(order[k], src, src + n)
  }

  ghost function MoveAll(s: set<MemRec>, order: seq<MemRec>, dest: nat, src: nat, n: nat): set<MemRec>
    requires InTurn(s, order, dest, src, n)
    decreases |order|, 1
  {
    if order == [] then s
    else
      var k := |order| - 1;
      MoveStep(MoveAll(s, order[..k], dest, src, n), order[k], dest, src, n)
  }

  lemma OneMoreMove(s: set<MemRec>, order: seq<MemRec>, b: MemRec, dest: nat, src: nat, n: nat)
    requires InTurn(s, order, dest, src, n)
    requires b in MoveAll(s, order, dest, src, n) && StartsIn(b, src, src + n)
    ensures InTurn(s, order + [b], dest, src, n)
    ensures MoveAll(s, order + [b], dest, src, n) == MoveStep(MoveAll(s, order, dest, src, n), b, dest, src, n)
  {
    assert (order + [b])[..|order|] == order;
  }

  lemma NoMoves(s: set<MemRec>, dest: nat, src: nat, n: nat)
    ensures InTurn(s, [], dest, src, n) && MoveAll(s, [], dest, src, n) == s
  {
  }

  /** When the destination is away from the source range, every record of the outcome is an old one
      or the copy of an old one that started in the range; and every old record survives that neither
      started in the range nor meets the destination. */
  lemma {:induction false} FarMove(s: set<MemRec>, order: seq<MemRec>, dest: nat, src: nat, n: nat)
    requires InTurn(s, order, dest, src, n) && (dest + n < src || src + n < dest)
    ensures forall r :: r in MoveAll(s, order, dest, src, n) ==>
      r in s || exists b :: b in s && IsMoved(r, b, dest, src, n)
    ensures forall r :: r in s && !StartsIn(r, src, src + n) && !Intersects(r, dest, dest + 2 * n) ==>
      r in MoveAll(s, order, dest, src, n)
  {
    if order != [] {
      var k := |order| - 1;
      FarMove(s, order[..k], dest, src, n);
      var b := order[k];
      assert b in s;
      assert IsMoved(Moved(b, dest, src, n), b, dest, src, n);
    }
  }

  /** All records of the sequence start in the source range. */
  ghost predicate AllStart(order: seq<MemRec>, src: nat, n: nat) {
    forall i :: 0 <= i < |order| ==> StartsIn(order[i], src, src + n)
  }

  /** No copy from the j-th on meets r. */
  ghost predicate Spared(r: MemRec, order: seq<MemRec>, j: nat, dest: nat, src: nat, n: nat)
    requires AllStart(order, src, n)
  {
    forall i :: j <= i < |order| ==>
      !Intersects(r, Moved(order[i], dest, src, n).startMemory, Moved(order[i], dest, src, n).tailMemory)
  }

  /** An old record that was not moved and that no copy has met. */
  ghost predicate Stayed(r: MemRec, s: set<MemRec>, order: seq<MemRec>, dest: nat, src: nat, n: nat)
    requires AllStart(order, src, n)
  {
    r in s && r !in order && Spared(r, order, 0, dest, src, n)
  }

  /** A copy that no later one has met. */
  ghost predicate Arrived(r: MemRec, order: seq<MemRec>, dest: nat, src: nat, n: nat)
    requires AllStart(order, src, n)
  {
    exists i :: 0 <= i < |order| && ArrivedAs(r, order, i, dest, src, n)
  }

  ghost predicate ArrivedAs(r: MemRec, order: seq<MemRec>, i: nat, dest: nat, src: nat, n: nat)
    requires i < |order| && AllStart(order, src, n)
  {
    r == Moved(order[i], dest, src, n) && Spared(r, order, i + 1, dest, src, n)
  }

  lemma {:induction false} TurnsStart(s: set<MemRec>, order: seq<MemRec>, dest: nat, src: nat, n: nat)
    requires InTurn(s, order, dest, src, n)
    ensures AllStart(order, src, n)
  {
    if order != [] {
      var k := |order| - 1;
      TurnsStart(s, order[..k], dest, src, n);
      assert order == order[..k] + [order[k]];
    }
  }

  /** With the destination away from the source range, the outcome is known exactly: the old records that
      were neither moved nor met by a copy, and the copies that no later copy has met. */
  lemma {:induction false} FarMoveExactly(s: set<MemRec>, order: seq<MemRec>, dest: nat, src: nat, n: nat, r: MemRec)
    requires InTurn(s, order, dest, src, n) && (dest + n < src || src + n < dest)
    requires AllStart(order, src, n)
    ensures r in MoveAll(s, order, dest, src, n)
       <==> Stayed(r, s, order, dest, src, n) || Arrived(r, order, dest, src, n)
  {
    if order != [] {
      var k := |order| - 1;
      var init, b := order[..k], order[k];
      assert order == init + [b];
      FarMoveExactly(s, init, dest, src, n, r);
      FarStep(s, init, b, dest, src, n, r);
    }
  }

  lemma FarStep(s: set<MemRec>, init: seq<MemRec>, b: MemRec, dest: nat, src: nat, n: nat, r: MemRec)
    requires dest + n < src || src + n < dest
    requires StartsIn(b, src, src + n) && AllStart(init, src, n)
    ensures AllStart(init + [b], src, n)
    ensures var c := Moved(b, dest, src, n);
      var before := Stayed(r, s, init, dest, src, n) || Arrived(r, init, dest, src, n);
      var after := Stayed(r, s, init + [b], dest, src, n) || Arrived(r, init + [b], dest, src, n);
      after <==> (r == c || (before && r != b && !Intersects(r, c.startMemory, c.tailMemory)))
  {
    var c, order, k := Moved(b, dest, src, n), init + [b], |init|;
    assert forall i :: 0 <= i < k ==> order[i] == init[i];
    assert forall j :: 0 <= j <= k ==> (Spared(r, order, j, dest, src, n) <==>
      Spared(r, init, j, dest, src, n) && !Intersects(r, c.startMemory, c.tailMemory)) by {
      assert order[k] == b;
    }
    hide Spared;
    SparedByNone(c, order, dest, src, n);
    assert r == c ==> ArrivedAs(r, order, k, dest, src, n);
    forall i | 0 <= i < k
      ensures ArrivedAs(r, order, i, dest, src, n)
         <==> ArrivedAs(r, init, i, dest, src, n) && !Intersects(r, c.startMemory, c.tailMemory)
    {
    }
    assert !StartsIn(c, src, src + n);
    forall i | 0 <= i < k && ArrivedAs(r, init, i, dest, src, n)
      ensures !StartsIn(r, src, src + n)
    {
      FarCopy(init[i], dest, src, n);
    }
  }

  lemma FarCopy(b: MemRec, dest: nat, src: nat, n: nat)
    requires StartsIn(b, src, src + n) && (dest + n < src || src + n < dest)
    ensures !StartsIn(Moved(b, dest, src, n), src, src + n)
  {
  }

  lemma SparedByNone(r: MemRec, order: seq<MemRec>, dest: nat, src: nat, n: nat)
    requires AllStart(order, src, n)
    ensures Spared(r, order, |order|, dest, src, n)
  {
  }

  // ---- A move in terms of addresses and file bytes --------------------------------------------------

  predicate Has(r: MemRec, x: int) {
    r.startMemory <= x < r.tailMemory
  }

  predicate In(x: int, lo: int, hi: int) {
    lo <= x < hi
  }

  lemma IntersectsIs(r: MemRec, lo: int, hi: int)
    requires r.startMemory < r.tailMemory && lo < hi
    ensures Intersects(r, lo, hi) <==> exists x :: Has(r, x) && In(x, lo, hi)
  {
    if Intersects(r, lo, hi) {
      var x := if lo < r.startMemory then r.startMemory else lo;
      assert Has(r, x) && In(x, lo, hi);
    }
  }

  /** The copy of b has address x: it starts as far behind dest as b does behind src, and is as long as the
      distance from src to the end of b, or to the end of the source range when that is nearer. */
  predicate InCopy(b: MemRec, x: int, dest: nat, src: nat, n: nat) {
    var first := dest + b.startMemory - src;
    first <= x < first + (if b.tailMemory < src + n then b.tailMemory else src + n) - src
  }

  lemma MovedHas(b: MemRec, x: int, dest: nat, src: nat, n: nat)
    requires StartsIn(b, src, src + n) && b.startMemory < b.tailMemory
    ensures Has(Moved(b, dest, src, n), x) <==> InCopy(b, x, dest, src, n)
  {
  }

  /** No later copy has an address of the i-th one. */
  ghost predicate CopyLasts(order: seq<MemRec>, i: nat, dest: nat, src: nat, n: nat)
    requires i < |order|
  {
    forall j, x :: i < j < |order| && InCopy(order[i], x, dest, src, n) ==> !InCopy(order[j], x, dest, src, n)
  }

  /** r is not moved, and no copy has an address of it. */
  ghost predicate OldLasts(r: MemRec, order: seq<MemRec>, dest: nat, src: nat, n: nat) {
    r !in order && forall j, x :: 0 <= j < |order| && Has(r, x) ==> !InCopy(order[j], x, dest, src, n)
  }

  ghost predicate NonEmpty(order: seq<MemRec>) {
    forall i :: 0 <= i < |order| ==> order[i].startMemory < order[i].tailMemory
  }

  lemma SparedIs(r: MemRec, order: seq<MemRec>, j: nat, dest: nat, src: nat, n: nat)
    requires AllStart(order, src, n) && NonEmpty(order) && r.startMemory < r.tailMemory && n > 0
    ensures Spared(r, order, j, dest, src, n)
       <==> forall i, x :: j <= i < |order| && Has(r, x) ==> !InCopy(order[i], x, dest, src, n)
  {
    forall i | j <= i < |order|
      ensures Intersects(r, Moved(order[i], dest, src, n).startMemory, Moved(order[i], dest, src, n).tailMemory)
         <==> exists x :: Has(r, x) && InCopy(order[i], x, dest, src, n)
    {
      SharesAddress(r, order[i], dest, src, n);
    }
    hide Intersects, Has, InCopy, Moved, StartsIn;
  }

  lemma SharesAddress(r: MemRec, b: MemRec, dest: nat, src: nat, n: nat)
    requires StartsIn(b, src, src + n) && b.startMemory < b.tailMemory && r.startMemory < r.tailMemory && n > 0
    ensures var c := Moved(b, dest, src, n);
      Intersects(r, c.startMemory, c.tailMemory) <==> exists x :: Has(r, x) && InCopy(b, x, dest, src, n)
  {
    var c := Moved(b, dest, src, n);
    IntersectsIs(r, c.startMemory, c.tailMemory);
    forall x
      ensures InCopy(b, x, dest, src, n) <==> In(x, c.startMemory, c.tailMemory)
    {
    }
    hide InCopy, In, Has, Intersects, Moved;
  }

  /** The copy of b leads every address to the file byte at the same distance as in b. */
  function CopiedByte(b: MemRec, x: int, dest: nat, src: nat): FileByte {
    FileByte(b.fileName, b.fileOffset + (x - (dest + b.startMemory - src)))
  }

  /** The address map after a move: the copies that last lead to their file bytes, the old records that
      last to theirs, and no other address leads anywhere. */
  ghost predicate MapAfterMove(before: seq<MemRec>, order: seq<MemRec>, after: seq<MemRec>,
                               dest: nat, src: nat, n: nat, x: int) {
    && (forall i :: 0 <= i < |order| && InCopy(order[i], x, dest, src, n) && CopyLasts(order, i, dest, src, n) ==>
          Lookup(after, x) == Some(CopiedByte(order[i], x, dest, src)))
    && (forall r :: r in before && Has(r, x) && OldLasts(r, order, dest, src, n) ==>
          Lookup(after, x) == Lookup(before, x) == Some(FileByte(r.fileName, r.fileOffset + (x - r.startMemory))))
    && (Lookup(after, x).Some? ==>
          || (exists i :: 0 <= i < |order| && InCopy(order[i], x, dest, src, n) && CopyLasts(order, i, dest, src, n))
          || (exists r :: r in before && Has(r, x) && OldLasts(r, order, dest, src, n)))
  }

  lemma StayedIs(r: MemRec, s: set<MemRec>, order: seq<MemRec>, dest: nat, src: nat, n: nat)
    requires AllStart(order, src, n) && NonEmpty(order) && r.startMemory < r.tailMemory && n > 0
    ensures Stayed(r, s, order, dest, src, n) <==> r in s && OldLasts(r, order, dest, src, n)
  {
    SparedIs(r, order, 0, dest, src, n);
    hide Spared, Has, InCopy;
  }

  lemma ArrivedIs(order: seq<MemRec>, i: nat, dest: nat, src: nat, n: nat)
    requires AllStart(order, src, n) && NonEmpty(order) && i < |order| && n > 0
    ensures ArrivedAs(Moved(order[i], dest, src, n), order, i, dest, src, n) <==> CopyLasts(order, i, dest, src, n)
    ensures ArrivedAs(Moved(order[i], dest, src, n), order, i, dest, src, n) ==>
      Arrived(Moved(order[i], dest, src, n), order, dest, src, n)
  {
    var c := Moved(order[i], dest, src, n);
    assert order[i].startMemory < order[i].tailMemory && StartsIn(order[i], src, src + n);
    SparedIs(c, order, i + 1, dest, src, n);
    forall x
      ensures Has(c, x) <==> InCopy(order[i], x, dest, src, n)
    {
      MovedHas(order[i], x, dest, src, n);
    }
    hide Spared, Has, InCopy, Moved;
  }

  lemma LookupOf(s: seq<MemRec>, r: MemRec, x: int)
    requires DisjointAscending(s) && r in s && Has(r, x)
    ensures Lookup(s, x) == Some(FileByte(r.fileName, r.fileOffset + (x - r.startMemory)))
  {
    OwnerUnique(s, r, x);
  }

  lemma LookupBy(s: seq<MemRec>, x: int) returns (r: MemRec)
    requires Lookup(s, x).Some?
    ensures r in s && Has(r, x)
  {
    OwnerIs(s, x);
    r := Owner(s, x).value;
  }

  lemma MembersOf(s: seq<MemRec>, r: MemRec)
    requires DisjointAscending(s) && r in s
    ensures r.startMemory < r.tailMemory
  {
    assert AssertRec(r);
  }

  /** With the destination away from the source range, only old records are moved, and none twice. */
  lemma {:induction false} OrderIsOld(s: set<MemRec>, order: seq<MemRec>, dest: nat, src: nat, n: nat)
    requires InTurn(s, order, dest, src, n) && (dest + n < src || src + n < dest) && AllStart(order, src, n)
    ensures forall i :: 0 <= i < |order| ==> order[i] in s
    ensures forall i, j :: 0 <= i < j < |order| ==> order[i] != order[j]
  {
    if order != [] {
      var k := |order| - 1;
      var init, b := order[..k], order[k];
      assert order == init + [b];
      OrderIsOld(s, init, dest, src, n);
      FarMoveExactly(s, init, dest, src, n, b);
      hide Spared;
      forall i | 0 <= i < k && ArrivedAs(b, init, i, dest, src, n)
        ensures false
      {
        FarCopy(init[i], dest, src, n);
      }
      assert Stayed(b, s, init, dest, src, n);
      assert b in s && b !in init;
    }
  }

  lemma FarMoveMaps(before: seq<MemRec>, order: seq<MemRec>, after: seq<MemRec>, dest: nat, src: nat, n: nat, x: int)
    requires DisjointAscending(before) && DisjointAscending(after) && n > 0 && (dest + n < src || src + n < dest)
    requires InTurn(SetOf(before), order, dest, src, n)
    requires SetOf(after) == MoveAll(SetOf(before), order, dest, src, n)
    ensures MapAfterMove(before, order, after, dest, src, n, x)
  {
    hide *;
    forall i | 0 <= i < |order| && InCopy(order[i], x, dest, src, n) && CopyLasts(order, i, dest, src, n)
      ensures Lookup(after, x) == Some(CopiedByte(order[i], x, dest, src))
    {
      CopyIsThere(before, order, after, dest, src, n, x, i);
    }
    forall r | r in before && Has(r, x) && OldLasts(r, order, dest, src, n)
      ensures Lookup(after, x) == Lookup(before, x) == Some(FileByte(r.fileName, r.fileOffset + (x - r.startMemory)))
    {
      RecordsAfterMove(before, order, after, dest, src, n, r);
      LookupOf(after, r, x);
      LookupOf(before, r, x);
    }
    if Lookup(after, x).Some? {
      var r := LookupBy(after, x);
      RecordsAfterMove(before, order, after, dest, src, n, r);
      if !(r in before && OldLasts(r, order, dest, src, n)) {
        var i :| 0 <= i < |order| && CopyLasts(order, i, dest, src, n) && IsCopyOf(r, order[i], dest, src, n);
        CopyHas(r, order[i], x, dest, src, n);
      }
    }
    MapAfterMoveIs(before, order, after, dest, src, n, x);
  }

  lemma MapAfterMoveIs(before: seq<MemRec>, order: seq<MemRec>, after: seq<MemRec>,
                       dest: nat, src: nat, n: nat, x: int)
    requires forall i :: 0 <= i < |order| && InCopy(order[i], x, dest, src, n) && CopyLasts(order, i, dest, src, n) ==>
      Lookup(after, x) == Some(CopiedByte(order[i], x, dest, src))
    requires forall r :: r in before && Has(r, x) && OldLasts(r, order, dest, src, n) ==>
      Lookup(after, x) == Lookup(before, x) == Some(FileByte(r.fileName, r.fileOffset + (x - r.startMemory)))
    requires Lookup(after, x).Some? ==>
      || (exists i :: 0 <= i < |order| && InCopy(order[i], x, dest, src, n) && CopyLasts(order, i, dest, src, n))
      || (exists r :: r in before && Has(r, x) && OldLasts(r, order, dest, src, n))
    ensures MapAfterMove(before, order, after, dest, src, n, x)
  {
    hide InCopy, CopyLasts, OldLasts, Lookup, Has, CopiedByte;
  }

  lemma CopyHas(r: MemRec, b: MemRec, x: int, dest: nat, src: nat, n: nat)
    requires IsCopyOf(r, b, dest, src, n)
    ensures Has(r, x) <==> InCopy(b, x, dest, src, n)
    ensures Has(r, x) ==> FileByte(r.fileName, r.fileOffset + (x - r.startMemory)) == CopiedByte(b, x, dest, src)
  {
  }

  lemma CopyIsThere(before: seq<MemRec>, order: seq<MemRec>, after: seq<MemRec>,
                    dest: nat, src: nat, n: nat, x: int, i: nat)
    requires DisjointAscending(before) && DisjointAscending(after) && n > 0 && (dest + n < src || src + n < dest)
    requires InTurn(SetOf(before), order, dest, src, n)
    requires SetOf(after) == MoveAll(SetOf(before), order, dest, src, n)
    requires i < |order| && InCopy(order[i], x, dest, src, n) && CopyLasts(order, i, dest, src, n)
    ensures Lookup(after, x) == Some(CopiedByte(order[i], x, dest, src))
  {
    hide *;
    InRange(before, order, dest, src, n);
    var b := order[i];
    assert b in order;
    var c := Moved(b, dest, src, n);
    MembersOf(before, b);
    CopyIs(c, b, dest, src, n);
    RecordsAfterMove(before, order, after, dest, src, n, c);
    CopyHas(c, b, x, dest, src, n);
    LookupOf(after, c, x);
  }

  /** r is the copy of b: as far behind dest as b behind src, to the end of b or of the source range, and
      with the same file and file offset. */
  predicate IsCopyOf(r: MemRec, b: MemRec, dest: nat, src: nat, n: nat) {
    && r.startMemory - dest == b.startMemory - src
    && r.tailMemory - r.startMemory == (if b.tailMemory < src + n then b.tailMemory else src + n) - src
    && r.fileName == b.fileName && r.fileOffset == b.fileOffset
  }

  /** The records after a move: the old ones that last, and the copies that last. */
  lemma RecordsAfterMove(before: seq<MemRec>, order: seq<MemRec>, after: seq<MemRec>,
                         dest: nat, src: nat, n: nat, r: MemRec)
    requires DisjointAscending(before) && n > 0 && (dest + n < src || src + n < dest)
    requires InTurn(SetOf(before), order, dest, src, n)
    requires SetOf(after) == MoveAll(SetOf(before), order, dest, src, n)
    ensures r in after <==>
      || (r in before && OldLasts(r, order, dest, src, n))
      || (exists i :: 0 <= i < |order| && CopyLasts(order, i, dest, src, n) && IsCopyOf(r, order[i], dest, src, n))
  {
    hide *;
    var s := SetOf(before);
    TurnsStart(s, order, dest, src, n);
    OrderIsOld(s, order, dest, src, n);
    SetHas(before);
    SetHas(after);
    AllNonEmpty(before, order);
    FarMoveExactly(s, order, dest, src, n, r);
    if r in before {
      MembersOf(before, r);
      StayedIs(r, s, order, dest, src, n);
    }
    forall i | 0 <= i < |order|
      ensures ArrivedAs(r, order, i, dest, src, n)
         <==> CopyLasts(order, i, dest, src, n) && IsCopyOf(r, order[i], dest, src, n)
    {
      AtStart(order, i, src, n);
      ArrivedIs(order, i, dest, src, n);
      CopyIs(r, order[i], dest, src, n);
      ArrivedAsIs(r, order, i, dest, src, n);
    }
    ArrivedSome(r, order, dest, src, n);
    StayedWas(r, s, order, dest, src, n);
  }

  lemma StayedWas(r: MemRec, s: set<MemRec>, order: seq<MemRec>, dest: nat, src: nat, n: nat)
    requires AllStart(order, src, n)
    ensures Stayed(r, s, order, dest, src, n) ==> r in s
  {
  }

  lemma SetHas(s: seq<MemRec>)
    ensures forall r :: r in SetOf(s) <==> r in s
  {
  }

  lemma AtStart(order: seq<MemRec>, i: nat, src: nat, n: nat)
    requires AllStart(order, src, n) && NonEmpty(order) && i < |order|
    ensures StartsIn(order[i], src, src + n) && order[i].startMemory < order[i].tailMemory
    ensures src <= order[i].startMemory
  {
  }

  lemma ArrivedAsIs(r: MemRec, order: seq<MemRec>, i: nat, dest: nat, src: nat, n: nat)
    requires i < |order| && AllStart(order, src, n) && StartsIn(order[i], src, src + n)
    ensures ArrivedAs(r, order, i, dest, src, n) ==> r == Moved(order[i], dest, src, n)
  {
    hide Spared;
  }

  lemma ArrivedSome(r: MemRec, order: seq<MemRec>, dest: nat, src: nat, n: nat)
    requires AllStart(order, src, n)
    ensures Arrived(r, order, dest, src, n)
       <==> exists i :: 0 <= i < |order| && ArrivedAs(r, order, i, dest, src, n)
  {
    hide ArrivedAs;
  }

  lemma CopyIs(r: MemRec, b: MemRec, dest: nat, src: nat, n: nat)
    requires StartsIn(b, src, src + n) && b.startMemory < b.tailMemory
    ensures r == Moved(b, dest, src, n) <==> IsCopyOf(r, b, dest, src, n)
  {
  }

  /** Every record that starts in the source range is moved, or in the way of a copy. */
  lemma StartersGo(before: seq<MemRec>, order: seq<MemRec>, after: seq<MemRec>, dest: nat, src: nat, n: nat, r: MemRec)
    requires DisjointAscending(before) && n > 0 && (dest + n < src || src + n < dest)
    requires InTurn(SetOf(before), order, dest, src, n)
    requires SetOf(after) == MoveAll(SetOf(before), order, dest, src, n)
    requires (forall b :: b in after ==> !StartsIn(b, src, src + n)) && r in before && StartsIn(r, src, src + n)
    ensures r in order || exists j, x :: 0 <= j < |order| && Has(r, x) && InCopy(order[j], x, dest, src, n)
  {
    RecordsAfterMove(before, order, after, dest, src, n, r);
  }

  /** Where a copy lasts, the address a byte has been copied to leads to the same file byte as the address
      it was copied from did. */
  lemma CopiedBytesLead(before: seq<MemRec>, order: seq<MemRec>, after: seq<MemRec>,
                        dest: nat, src: nat, n: nat, i: nat, x: nat)
    requires DisjointAscending(before) && i < |order| && CopyLasts(order, i, dest, src, n) && order[i] in before
    requires StartsIn(order[i], src, src + n) && Has(order[i], x) && x < src + n
    requires MapAfterMove(before, order, after, dest, src, n, dest + (x - src))
    ensures Lookup(after, dest + (x - src)) == Lookup(before, x)
         == Some(FileByte(order[i].fileName, order[i].fileOffset + (x - order[i].startMemory)))
  {
    LookupOf(before, order[i], x);
    assert InCopy(order[i], dest + (x - src), dest, src, n);
    hide CopyLasts;
  }

  lemma FarOutcome(before: seq<MemRec>, order: seq<MemRec>, after: seq<MemRec>, dest: nat, src: nat, n: nat)
    requires DisjointAscending(before) && DisjointAscending(after) && n > 0 && (dest + n < src || src + n < dest)
    requires InTurn(SetOf(before), order, dest, src, n)
    requires SetOf(after) == MoveAll(SetOf(before), order, dest, src, n)
    requires forall r :: r in after ==> !StartsIn(r, src, src + n)
    ensures forall b :: b in order ==> b in before && StartsIn(b, src, src + n)
    ensures forall r :: r in before && StartsIn(r, src, src + n) ==>
      r in order || exists j, x :: 0 <= j < |order| && Has(r, x) && InCopy(order[j], x, dest, src, n)
    ensures forall i, x: nat ::
      0 <= i < |order| && CopyLasts(order, i, dest, src, n) && Has(order[i], x) && x < src + n ==>
      Lookup(after, dest + (x - src)) == Lookup(before, x)
        == Some(FileByte(order[i].fileName, order[i].fileOffset + (x - order[i].startMemory)))
    ensures forall x :: MapAfterMove(before, order, after, dest, src, n, x)
  {
    hide *;
    InRange(before, order, dest, src, n);
    forall x
      ensures MapAfterMove(before, order, after, dest, src, n, x)
    {
      FarMoveMaps(before, order, after, dest, src, n, x);
    }
    forall i, x: nat | 0 <= i < |order| && CopyLasts(order, i, dest, src, n) && Has(order[i], x) && x < src + n
      ensures Lookup(after, dest + (x - src)) == Lookup(before, x)
        == Some(FileByte(order[i].fileName, order[i].fileOffset + (x - order[i].startMemory)))
    {
      assert order[i] in order;
      CopiedBytesLead(before, order, after, dest, src, n, i, x);
    }
    forall r | r in before && StartsIn(r, src, src + n)
      ensures r in order || exists j, x :: 0 <= j < |order| && Has(r, x) && InCopy(order[j], x, dest, src, n)
    {
      StartersGo(before, order, after, dest, src, n, r);
    }
  }

  lemma InRange(before: seq<MemRec>, order: seq<MemRec>, dest: nat, src: nat, n: nat)
    requires InTurn(SetOf(before), order, dest, src, n) && (dest + n < src || src + n < dest)
    ensures forall b :: b in order ==> b in before && StartsIn(b, src, src + n) && src <= b.startMemory
  {
    TurnsStart(SetOf(before), order, dest, src, n);
    OrderIsOld(SetOf(before), order, dest, src, n);
  }

  // ---- One round in terms of addresses ---------------------------------------------------------------

  /** What one round does to the address map, wherever the destination is: the copy leads to its file bytes;
      b and the records that have an address of the copy are gone. */
  function RoundMap(before: seq<MemRec>, b: MemRec, dest: nat, src: nat, n: nat, x: int): Option<FileByte>
  {
    var first := dest + b.startMemory - src;
    var tail := first + (if b.tailMemory < src + n then b.tailMemory else src + n) - src;
    if InCopy(b, x, dest, src, n) then Some(CopiedByte(b, x, dest, src))
    else
      match Owner(before, x)
      case None => None
      case Some(r) =>
        if r == b || Intersects(r, first, tail) then None
        else Some(FileByte(r.fileName, r.fileOffset + (x - r.startMemory)))
  }

  lemma RoundMaps(before: seq<MemRec>, taken: seq<MemRec>, b: MemRec, dest: nat, src: nat, n: nat, x: int)
    requires DisjointAscending(before) && DisjointAscending(taken) && b in before && StartsIn(b, src, src + n)
    requires forall r :: r in taken <==> r in before && r != b
    ensures Updated(taken, Moved(b, dest, src, n), x) == RoundMap(before, b, dest, src, n, x)
  {
    MembersOf(before, b);
    MovedHas(b, x, dest, src, n);
    OwnerIs(taken, x);
    OwnerIs(before, x);
    if Owner(taken, x).Some? {
      OwnerUnique(before, Owner(taken, x).value, x);
    }
    assert Owner(taken, x).None? && Owner(before, x).Some? ==> Owner(before, x).value == b;
  }

  lemma AllNonEmpty(before: seq<MemRec>, order: seq<MemRec>)
    requires DisjointAscending(before) && forall i :: 0 <= i < |order| ==> order[i] in before
    ensures NonEmpty(order)
  {
    forall i | 0 <= i < |order|
      ensures order[i].startMemory < order[i].tailMemory
    {
      MembersOf(before, order[i]);
    }
  }

  function Starters(s: set<MemRec>, src: nat, n: nat): set<MemRec> {
    set r | r in s && StartsIn(r, src, src + n)
  }

  /** With the destination away from the source range, every round leaves fewer records there. */
  lemma FarRoundTakesOne(s: set<MemRec>, b: MemRec, dest: nat, src: nat, n: nat)
    requires b in s && StartsIn(b, src, src + n) && (dest + n < src || src + n < dest)
    ensures Starters(MoveStep(s, b, dest, src, n), src, n) <= Starters(s, src, n) - {b}
    ensures |Starters(MoveStep(s, b, dest, src, n), src, n)| < |Starters(s, src, n)|
  {
    var before, after := Starters(s, src, n), Starters(MoveStep(s, b, dest, src, n), src, n);
    assert !StartsIn(Moved(b, dest, src, n), src, src + n);
    assert after <= before - {b};
    SubsetSize(after, before - {b});
  }

  lemma {:induction false} SubsetSize<T>(a: set<T>, b: set<T>)
    requires a <= b
    ensures |a| <= |b|
    decreases |a|
  {
    if a != {} {
      var x :| x in a;
      SubsetSize(a - {x}, b - {x});
    }
  }

  ghost predicate IsMoved(r: MemRec, b: MemRec, dest: nat, src: nat, n: nat) {
    StartsIn(b, src, src + n) && r == Moved(b, dest, src, n)
  }

  /** Moving a range onto itself never ends: as long as one record starts in the range, some record
      does after every round. */
  lemma {:induction false} SelfMoveNeverEnds(s: set<MemRec>, order: seq<MemRec>, src: nat, n: nat)
    requires InTurn(s, order, src, src, n) && exists r :: r in s && StartsIn(r, src, src + n)
    ensures exists r :: r in MoveAll(s, order, src, src, n) && StartsIn(r, src, src + n)
  {
    if order != [] {
      var k := |order| - 1;
      var c := Moved(order[k], src, src, n);
      assert c in MoveAll(s, order, src, src, n) && StartsIn(c, src, src + n);
    } else {
      assert MoveAll(s, order, src, src, n) == s;
    }
  }

  // ---- The index ----------------------------------------------------------------------------

  class Index {
    var recTreeRoot: Tree<MemRec>

    ghost predicate Valid()
      reads this
    {
      DisjointAscending(Records())
    }

    ghost function Records(): seq<MemRec>
      reads this
    {
      InOrder(recTreeRoot)
    }

    ghost function Members(): set<MemRec>
      reads this
    {
      SetOf(Records())
    }

    constructor ()
      ensures Valid() && Records() == []
    {
      recTreeRoot := Leaf;
    }

    /** Removes exactly the records that intersect [dest, dest + length). */
    method DeleteRec(dest: nat, length: nat)
      requires Valid() && length > 0 && LOWEST_MEMORY < dest
      modifies this
      ensures Valid()
      ensures Records() == Without(old(Records()), dest, dest + length)
      ensures forall r :: r in Records() <==> r in old(Records()) && !Intersects(r, dest, dest + length)
    {
      var rec := MemRec(dest, dest + length, 0, 0);
      var searchRes := TFind(recTreeRoot, rec, OverlapRec);
      while searchRes.Some?
        invariant Valid()
        invariant Without(Records(), dest, dest + length) == Without(old(Records()), dest, dest + length)
        invariant searchRes == TFind(recTreeRoot, rec, OverlapRec)
        decreases |Records()|
      {
        DeleteStep(recTreeRoot, rec);
        recTreeRoot := TDelete(recTreeRoot, rec, OverlapRec);
        searchRes := TFind(recTreeRoot, rec, OverlapRec);
      }
      DeleteDone(recTreeRoot, rec);
      WithoutIsFilter(old(Records()), dest, dest + length);
    }

    /** Makes room, then always really inserts. */
    method InsertRec(fileOffset: nat, dest: nat, fileName: nat, length: nat) returns (ghost at: nat)
      requires Valid() && length > 0 && LOWEST_MEMORY < dest
      requires fileOffset < FILE_OFFSET_LIMIT && fileName != 0
      modifies this
      ensures Valid()
      ensures var kept := Without(old(Records()), dest, dest + length);
        at <= |kept| && Records() == InsertAt(kept, at, MemRec(dest, dest + length, fileName, fileOffset))
      ensures forall r :: r in Records() <==>
        || r == MemRec(dest, dest + length, fileName, fileOffset)
        || (r in old(Records()) && !Intersects(r, dest, dest + length))
      ensures var rec := MemRec(dest, dest + length, fileName, fileOffset);
        forall x :: Lookup(Records(), x) == Updated(old(Records()), rec, x)
    {
      ghost var before := Records();
      DeleteRec(dest, length);
      var rec := MemRec(dest, dest + length, fileName, fileOffset);
      RecCompareDescends(Records(), rec);
      NoEqualStart(Records(), rec);
      at := TSearchInserts(recTreeRoot, rec, RecCompare);
      InsertKeepsDisjoint(Records(), at, rec);
      recTreeRoot := TSearch(recTreeRoot, rec, RecCompare);
      forall x
        ensures Lookup(Records(), x) == Updated(before, rec, x)
      {
        InsertUpdatesMap(before, Records(), rec, x);
      }
    }

    /** Moves every record that starts in [src, src + n] to its place in the destination, one after
        the other in the order tfind returns them, until none is left. The move ends for every pair
        of distinct addresses: each round takes a record out of the source range or brings it
        closer to leaving it. */
    method MemcpyTraced(dest: nat, src: nat, n: nat) returns (ghost order: seq<MemRec>)
      requires Valid() && n > 0 && LOWEST_MEMORY < dest
      requires dest != src || forall r :: r in Records() ==> !StartsIn(r, src, src + n)
      modifies this
      ensures Valid()
      ensures InTurn(old(Members()), order, dest, src, n)
      ensures Members() == MoveAll(old(Members()), order, dest, src, n)
      ensures forall r :: r in Records() ==> !StartsIn(r, src, src + n)
      ensures dest + n < src || src + n < dest ==>
        && (forall b :: b in order ==> b in old(Records()) && StartsIn(b, src, src + n))
        && (forall r :: r in old(Records()) && StartsIn(r, src, src + n) ==>
              r in order || exists j, x :: 0 <= j < |order| && Has(r, x) && InCopy(order[j], x, dest, src, n))
        && (forall i, x: nat ::
              0 <= i < |order| && CopyLasts(order, i, dest, src, n) && Has(order[i], x) && x < src + n ==>
              Lookup(Records(), dest + (x - src)) == Lookup(old(Records()), x)
                == Some(FileByte(order[i].fileName, order[i].fileOffset + (x - order[i].startMemory))))
        && (forall x :: MapAfterMove(old(Records()), order, Records(), dest, src, n, x))
    {
      hide InOrder, DisjointAscending, MapAfterMove, CopyLasts, Lookup, InCopy, TotalWeight, MoveAll, InTurn, MoveStep;
      var rec := MemRec(src, src + n, 0, 0);
      ghost var up := dest > src;
      order := [];
      NoMoves(Members(), dest, src, n);
      var searchRes := TFind(recTreeRoot, rec, OverlapRecBegBigger);
      BegBiggerFindComplete(recTreeRoot, rec);
      while searchRes.Some?
        invariant Valid()
        invariant searchRes == TFind(recTreeRoot, rec, OverlapRecBegBigger) && (searchRes.Some? ==> dest != src)
        invariant InTurn(old(Members()), order, dest, src, n)
        invariant Members() == MoveAll(old(Members()), order, dest, src, n)
        decreases TotalWeight(Records(), src, src + n, up)
      {
        var b := searchRes.value;
        TakeStep(recTreeRoot, rec, up);
        OneMoreMove(old(Members()), order, b, dest, src, n);
        MoveOne(rec, b, dest, src, n);
        order := order + [b];
        searchRes := TFind(recTreeRoot, rec, OverlapRecBegBigger);
      }
      BegBiggerFindComplete(recTreeRoot, rec);
      if dest + n < src || src + n < dest {
        FarOutcome(old(Records()), order, Records(), dest, src, n);
      }
    }

    /** One round: tdelete of the record found, then insertRec of its copy. */
    method MoveOne(rec: MemRec, b: MemRec, dest: nat, src: nat, n: nat)
      requires Valid() && n > 0 && dest != src && LOWEST_MEMORY < dest
      requires rec == MemRec(src, src + n, 0, 0)
      requires TFind(recTreeRoot, rec, OverlapRecBegBigger) == Some(b) && StartsIn(b, src, src + n)
      modifies this
      ensures Valid()
      ensures Members() == MoveStep(old(Members()), b, dest, src, n)
      ensures forall x :: Lookup(Records(), x) == RoundMap(old(Records()), b, dest, src, n, x)
      ensures TotalWeight(Records(), src, src + n, dest > src) < old(TotalWeight(Records(), src, src + n, dest > src))
    {
      hide InOrder, InsertAt, Without, TotalWeight, Weight, DisjointAscending, Lookup, Updated, RoundMap;
      ghost var before := Records();
      TakeStep(recTreeRoot, rec, dest > src);
      var insertDest := dest + (b.startMemory - src);
      var copyLen := (if b.tailMemory < src + n then b.tailMemory else src + n) - src;
      recTreeRoot := TDelete(recTreeRoot, rec, OverlapRecBegBigger);
      ghost var taken := Records();
      ghost var at := InsertRec(b.fileOffset, insertDest, b.fileName, copyLen);
      assert Moved(b, dest, src, n) == MemRec(insertDest, insertDest + copyLen, b.fileName, b.fileOffset);
      MoveShrinksWeight(taken, at, b, dest, src, n);
      forall x
        ensures Updated(taken, Moved(b, dest, src, n), x) == RoundMap(before, b, dest, src, n, x)
      {
        RoundMaps(before, taken, b, dest, src, n, x);
      }
    }
  }
}
