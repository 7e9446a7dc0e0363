/** The mapped files: two trees of the same nodes, one by start address and one by name. */
module FileMaps {
  import opened Addr
  import opened Bst

  /** fileName is the address of the name: names are compared by pointer. */
  datatype FileMap = FileMap(start: nat, tail: nat, fileName: nat, offset: nat, fd: int)

  function StartCompare(a: FileMap, b: FileMap): int {
    if a.start < b.start then -1 else if a.start > b.start then 1 else 0
  }

  function NameCompare(a: FileMap, b: FileMap): int {
    if a.fileName < b.fileName then -1 else if a.fileName > b.fileName then 1 else 0
  }

  /** fileMapTreeSearchCompare */
  function SearchCompare(a: FileMap, b: FileMap): int {
    if a.start > b.start && a.start > b.tail then 1
    else if a.start < b.start && a.tail < b.start then -1
    else 0
  }

  /** The closed range [lo, hi] meets the closed range of the mapping. */
  predicate Touches(m: FileMap, lo: int, hi: int) {
    lo <= m.tail && m.start <= hi
  }

  /** Mappings in address order, none reaching into the next; they may be adjacent. */
  ghost predicate DisjointMappings(s: seq<FileMap>) {
    && (forall m :: m in s ==> m.start < m.tail)
    && (forall i, j :: 0 <= i < j < |s| ==> s[i].tail <= s[j].start)
  }

  /** The search of ts_memcpy for the mapping its source is in. */
  function FindRange(t: Tree<FileMap>, lo: nat, hi: nat): Option<FileMap> {
    TFind(t, FileMap(lo, hi, 0, 0, 0), SearchCompare)
  }

  /** A search by address range succeeds exactly when some mapping touches the range. */
  lemma SearchComplete(t: Tree<FileMap>, lo: nat, hi: nat)
    requires DisjointMappings(InOrder(t)) && lo <= hi
    ensures FindRange(t, lo, hi).Some? <==> exists m :: m in InOrder(t) && Touches(m, lo, hi)
    ensures FindRange(t, lo, hi).Some? ==>
      FindRange(t, lo, hi).value in InOrder(t) && Touches(FindRange(t, lo, hi).value, lo, hi)
  {
    var key, s := FileMap(lo, hi, 0, 0, 0), InOrder(t);
    assert forall i :: 0 <= i < |s| ==>
      s[i].start < s[i].tail && (SearchCompare(key, s[i]) == 0 <==> Touches(s[i], lo, hi));
    assert Descends(s, key, SearchCompare) by {
      forall i, j | 0 <= i < j < |s|
        ensures SearchCompare(key, s[i]) < 0 ==> SearchCompare(key, s[j]) < 0
        ensures SearchCompare(key, s[j]) > 0 ==> SearchCompare(key, s[i]) > 0
      {
        assert s[i].start < s[i].tail <= s[j].start < s[j].tail;
      }
    }
    TFindComplete(t, key, SearchCompare);
    if TFind(t, key, SearchCompare).Some? { TFindSound(t, key, SearchCompare); }
  }

  /** The mapping with the given name pointer. */
  function FindName(names: Tree<FileMap>, name: nat): Option<FileMap> {
    TFind(names, FileMap(0, 0, name, 0, 0), NameCompare)
  }

  ghost predicate NamesAscend(s: seq<FileMap>) {
    forall i, j :: 0 <= i < j < |s| ==> s[i].fileName < s[j].fileName
  }

  /** With distinct names in order, a name finds exactly the mapping that has it. */
  lemma FindNameExact(names: Tree<FileMap>, m: FileMap)
    requires NamesAscend(InOrder(names)) && m in InOrder(names)
    ensures FindName(names, m.fileName) == Some(m)
  {
    var key, s := FileMap(0, 0, m.fileName, 0, 0), InOrder(names);
    assert Descends(s, key, NameCompare);
    var i :| 0 <= i < |s| && s[i] == m;
    assert NameCompare(key, s[i]) == 0;
    TFindComplete(names, key, NameCompare);
    TFindSound(names, key, NameCompare);
    var found := TFind(names, key, NameCompare).value;
    assert NameCompare(key, found) == 0;
    var j :| 0 <= j < |s| && s[j] == found;
    assert !(i < j) && !(j < i);
  }

  /** No wrap-around is near, in memory or in the file. */
  predicate InSpace(m: FileMap) {
    m.start < m.tail < TWO64 && m.offset + (m.tail - m.start) < TWO64
  }

  /** Every mapping of the listing s is entered under its own name. */
  ghost predicate Registered(s: seq<FileMap>, names: Tree<FileMap>) {
    && DisjointMappings(s) && NamesAscend(InOrder(names))
    && forall m :: m in s ==> m in InOrder(names) && InSpace(m)
  }

  /** The source range is inside one of the mappings. */
  ghost predicate Inside(s: seq<FileMap>, src: nat, n: nat) {
    exists m :: m in s && m.start <= src && src + n <= m.tail
  }

  /** A mapping starts right where the range ends, and the range, not empty, is not longer than that
      mapping's offset in its file. */
  ghost predicate Clash(s: seq<FileMap>, src: nat, n: nat) {
    exists o :: o in s && Clashes(o, src, n)
  }

  predicate Clashes(o: FileMap, src: nat, n: nat) {
    n > 0 && o.start == src + n && o.offset >= n
  }

  /** What ts_memcpy finds for a source inside a mapping: that one, a neighbour that ends where the
      range starts, or one that starts where the range ends. */
  lemma FoundMapping(t: Tree<FileMap>, src: nat, n: nat)
    requires DisjointMappings(InOrder(t)) && Inside(InOrder(t), src, n)
    ensures var found := FindRange(t, src, src + n);
      found.Some? && found.value in InOrder(t)
      && (found.value.start == src + n || found.value.start <= src <= found.value.tail)
  {
    hide FindRange, InOrder;
    var s := InOrder(t);
    var m :| m in s && m.start <= src && src + n <= m.tail;
    assert Touches(m, src, src + n);
    SearchComplete(t, src, src + n);
    BothTouch(s, m, FindRange(t, src, src + n).value, src, n);
  }

  /** A mapping that touches a range inside another one is that one, or below or above the range. */
  lemma BothTouch(s: seq<FileMap>, m: FileMap, f: FileMap, src: nat, n: nat)
    requires DisjointMappings(s) && m in s && f in s
    requires m.start <= src && src + n <= m.tail && Touches(f, src, src + n)
    ensures f.start == src + n || f.start <= src <= f.tail
  {
    var i :| 0 <= i < |s| && s[i] == m;
    var j :| 0 <= j < |s| && s[j] == f;
    hide DisjointMappings;
    Below(s, i, j);
    Below(s, j, i);
  }

  lemma Below(s: seq<FileMap>, i: nat, j: nat)
    requires DisjointMappings(s) && i < |s| && j < |s|
    ensures i < j ==> s[i].start < s[i].tail <= s[j].start < s[j].tail
  {
    assert s[i] in s && s[j] in s;
  }

  // ---- Trees with a given listing ------------------------------------------------------------

  /** A tree that is a list. */
  function Spine(s: seq<FileMap>): Tree<FileMap> {
    if s == [] then Leaf else Node(Leaf, s[0], Spine(s[1..]))
  }

  lemma {:induction false} SpineLists(s: seq<FileMap>)
    ensures InOrder(Spine(s)) == s
  {
    if s != [] {
      SpineLists(s[1..]);
      assert [] + [s[0]] + s[1..] == s;
    }
  }

  /** A tree with element k of the listing at its root. */
  function Rooted(s: seq<FileMap>, k: nat): Tree<FileMap>
    requires k < |s|
  {
    Node(Spine(s[..k]), s[k], Spine(s[k + 1..]))
  }

  lemma RootedLists(s: seq<FileMap>, k: nat)
    requires k < |s|
    ensures InOrder(Rooted(s, k)) == s
  {
    SpineLists(s[..k]);
    SpineLists(s[k + 1..]);
    assert s[..k] + [s[k]] + s[k + 1..] == s;
  }

  /** A mapping that touches the range is found when it is at the root. */
  lemma RootIsFound(s: seq<FileMap>, k: nat, lo: nat, hi: nat)
    requires k < |s| && Touches(s[k], lo, hi) && s[k].start <= s[k].tail
    ensures FindRange(Rooted(s, k), lo, hi) == Some(s[k])
  {
  }

  /** The record names the mapping that the bytes come from, whatever the shape of the tree, if and only if
      no other mapping touches the range - not even one that ends where the range starts, or starts
      where it ends. */
  lemma EveryTreeFindsInside(s: seq<FileMap>, m: FileMap, src: nat, n: nat)
    requires DisjointMappings(s) && m in s && m.start <= src && src + n <= m.tail
    ensures (forall t :: InOrder(t) == s ==> FindRange(t, src, src + n) == Some(m))
       <==> forall o :: o in s && o != m ==> !Touches(o, src, src + n)
  {
    hide FindRange, InOrder, DisjointMappings;
    forall t | InOrder(t) == s && (forall o :: o in s && o != m ==> !Touches(o, src, src + n))
      ensures FindRange(t, src, src + n) == Some(m)
    {
      SearchComplete(t, src, src + n);
      assert Touches(m, src, src + n);
    }
    if o :| o in s && o != m && Touches(o, src, src + n) {
      var k :| 0 <= k < |s| && s[k] == o;
      NonEmptyAt(s, k);
      RootedLists(s, k);
      RootIsFound(s, k, src, src + n);
    }
  }

  lemma NonEmptyAt(s: seq<FileMap>, k: nat)
    requires DisjointMappings(s) && k < |s|
    ensures s[k].start < s[k].tail
  {
  }

  // ---- ts_mmap ---------------------------------------------------------------------------------

  /** One more mapping between those below and those above it. */
  lemma InsertedDisjoint(s: seq<FileMap>, i: nat, m: FileMap)
    requires DisjointMappings(s) && i <= |s| && m.start < m.tail
    requires forall j :: 0 <= j < i ==> s[j].tail <= m.start
    requires forall j :: i <= j < |s| ==> m.tail <= s[j].start
    ensures DisjointMappings(InsertAt(s, i, m))
  {
    hide DisjointMappings, InsertAt;
    var s' := InsertAt(s, i, m);
    InsertedMembers(s, i, m);
    forall j, k | 0 <= j < k < |s'|
      ensures s'[j].tail <= s'[k].start
    {
      InsertedElement(s, i, m, j);
      InsertedElement(s, i, m, k);
      Below(s, if j < i || j == 0 then j else j - 1, if k < i || k == 0 then k else k - 1);
    }
    AllNonEmpty(s, s', m);
  }

  lemma InsertedElement(s: seq<FileMap>, i: nat, m: FileMap, j: nat)
    requires i <= |s|
    ensures |InsertAt(s, i, m)| == |s| + 1
    ensures j <= |s| ==> InsertAt(s, i, m)[j] == if j < i then s[j] else if j == i then m else s[j - 1]
  {
  }

  lemma AllNonEmpty(s: seq<FileMap>, s': seq<FileMap>, m: FileMap)
    requires DisjointMappings(s) && m.start < m.tail && (forall o :: o in s' <==> o == m || o in s)
    requires forall j, k :: 0 <= j < k < |s'| ==> s'[j].tail <= s'[k].start
    ensures DisjointMappings(s')
  {
  }

  lemma InsertedMembers(s: seq<FileMap>, i: nat, m: FileMap)
    requires i <= |s|
    ensures forall o :: o in InsertAt(s, i, m) <==> o == m || o in s
  {
    assert s == s[..i] + s[i..];
  }

  /** A new mapping that meets no other is in the tree afterwards, and the tree stays disjoint. */
  lemma MapKeepsDisjoint(t: Tree<FileMap>, m: FileMap)
    requires DisjointMappings(InOrder(t)) && m.start < m.tail
    requires forall o :: o in InOrder(t) ==> o.tail <= m.start || m.tail <= o.start
    ensures DisjointMappings(InOrder(TSearch(t, m, StartCompare)))
    ensures forall o :: o in InOrder(TSearch(t, m, StartCompare)) <==> o == m || o in InOrder(t)
  {
    hide InOrder, InsertAt, DisjointMappings;
    var s := InOrder(t);
    FreePlace(s, m);
    var i := TSearchInserts(t, m, StartCompare);
    PlaceBetween(s, i, m);
    InsertedDisjoint(s, i, m);
    InsertedMembers(s, i, m);
  }

  /** The start address of a mapping that meets no other is in order with theirs, and new. */
  lemma FreePlace(s: seq<FileMap>, m: FileMap)
    requires DisjointMappings(s) && m.start < m.tail && forall o :: o in s ==> o.tail <= m.start || m.tail <= o.start
    ensures Descends(s, m, StartCompare) && !Hits(s, m, StartCompare)
  {
    assert forall i :: 0 <= i < |s| ==> s[i] in s && s[i].start < s[i].tail;
  }

  lemma PlaceBetween(s: seq<FileMap>, i: nat, m: FileMap)
    requires DisjointMappings(s) && m.start < m.tail && forall o :: o in s ==> o.tail <= m.start || m.tail <= o.start
    requires CutAt(s, m, StartCompare, i)
    ensures i <= |s| && (forall j :: 0 <= j < i ==> s[j].tail <= m.start)
    ensures forall j :: i <= j < |s| ==> m.tail <= s[j].start
  {
    forall j | 0 <= j < |s|
      ensures if j < i then s[j].tail <= m.start else m.tail <= s[j].start
    {
      assert s[j] in s && (j < i <==> StartCompare(m, s[j]) > 0);
    }
  }

  lemma InsertedNames(s: seq<FileMap>, i: nat, m: FileMap)
    requires NamesAscend(s) && i <= |s|
    requires forall j :: 0 <= j < i ==> s[j].fileName < m.fileName
    requires forall j :: i <= j < |s| ==> m.fileName < s[j].fileName
    ensures NamesAscend(InsertAt(s, i, m))
  {
    var s' := InsertAt(s, i, m);
    forall j, k | 0 <= j < k < |s'|
      ensures s'[j].fileName < s'[k].fileName
    {
      assert j != i && k != i ==> s'[j] == s[if j < i then j else j - 1] && s'[k] == s[if k < i then k else k - 1];
    }
  }

  /** A name is entered once: a second mapping of the same name leaves the tree as it is. */
  lemma MapKeepsNames(t: Tree<FileMap>, m: FileMap)
    requires NamesAscend(InOrder(t))
    ensures var t' := TSearch(t, m, NameCompare);
      && NamesAscend(InOrder(t'))
      && (FindName(t, m.fileName).Some? ==> t' == t)
      && (FindName(t, m.fileName).None? ==> forall o :: o in InOrder(t') <==> o == m || o in InOrder(t))
  {
    hide InOrder, InsertAt;
    var s := InOrder(t);
    SameSearch(t, m, FileMap(0, 0, m.fileName, 0, 0));
    assert Descends(s, m, NameCompare);
    TFindComplete(t, m, NameCompare);
    if FindName(t, m.fileName).Some? {
      TSearchKeeps(t, m, NameCompare);
    } else {
      var i := TSearchInserts(t, m, NameCompare);
      assert forall j :: 0 <= j < |s| ==> NameCompare(m, s[j]) != 0 && (j < i <==> NameCompare(m, s[j]) > 0);
      InsertedNames(s, i, m);
      InsertedMembers(s, i, m);
    }
  }

  /** ts_mmap with a range that meets no other mapping and a name that is not in use. */
  predicate Fits(s: seq<FileMap>, names: Tree<FileMap>, m: FileMap) {
    && InSpace(m) && FindName(names, m.fileName).None?
    && forall o :: o in s ==> o.tail <= m.start || m.tail <= o.start
  }

  /** Then it is registered like the mappings there were. */
  lemma MapRegisters(t: Tree<FileMap>, names: Tree<FileMap>, m: FileMap)
    requires Registered(InOrder(t), names) && Fits(InOrder(t), names, m)
    ensures Registered(InOrder(TSearch(t, m, StartCompare)), TSearch(names, m, NameCompare))
    ensures forall o :: o in InOrder(TSearch(t, m, StartCompare)) <==> o == m || o in InOrder(t)
    ensures forall o :: o in InOrder(TSearch(names, m, NameCompare)) <==> o == m || o in InOrder(names)
  {
    hide InOrder, FindName, NamesAscend, DisjointMappings;
    MapKeepsDisjoint(t, m);
    MapKeepsNames(names, m);
  }

  /** A name that no mapping has is new. */
  lemma NameIsNew(names: Tree<FileMap>, name: nat)
    requires forall o :: o in InOrder(names) ==> o.fileName != name
    ensures FindName(names, name).None?
  {
    var key := FileMap(0, 0, name, 0, 0);
    if TFind(names, key, NameCompare).Some? { TFindSound(names, key, NameCompare); }
  }

  lemma {:induction false} SameSearch(t: Tree<FileMap>, a: FileMap, b: FileMap)
    requires a.fileName == b.fileName
    ensures TFind(t, a, NameCompare) == TFind(t, b, NameCompare)
  {
    if t.Node? {
      SameSearch(t.left, a, b);
      SameSearch(t.right, a, b);
    }
  }
}
