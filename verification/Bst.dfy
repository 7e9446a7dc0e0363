/** tsearch, tfind and tdelete on a binary search tree, with the comparator as an argument: the
    program inserts with one comparator and searches with another.

    Every result is stated on the in-order listing, so it holds for any tree shape the library's
    rebalancing may produce. */
module Bst {

  datatype Option<+T> = None | Some(value: T)

  datatype Tree<+T> = Leaf | Node(left: Tree<T>, val: T, right: Tree<T>)

  function InOrder<T>(t: Tree<T>): seq<T> {
    match t
    case Leaf => []
    case Node(l, v, r) => InOrder(l) + [v] + InOrder(r)
  }

  /** tfind: the first node on the search path with comparison zero. */
  function TFind<T>(t: Tree<T>, key: T, cmp: (T, T) -> int): Option<T> {
    match t
    case Leaf => None
    case Node(l, v, r) =>
      var c := cmp(key, v);
      if c == 0 then Some(v) else if c < 0 then TFind(l, key, cmp) else TFind(r, key, cmp)
  }

  /** tsearch: insert unless the search path meets comparison zero. */
  function TSearch<T>(t: Tree<T>, key: T, cmp: (T, T) -> int): Tree<T> {
    match t
    case Leaf => Node(Leaf, key, Leaf)
    case Node(l, v, r) =>
      var c := cmp(key, v);
      if c == 0 then t
      else if c < 0 then Node(TSearch(l, key, cmp), v, r)
      else Node(l, v, TSearch(r, key, cmp))
  }

  function Leftmost<T>(t: Tree<T>): T
    requires t.Node?
  {
    if t.left.Leaf? then t.val else Leftmost(t.left)
  }

  function WithoutLeftmost<T>(t: Tree<T>): Tree<T>
    requires t.Node?
  {
    if t.left.Leaf? then t.right else Node(WithoutLeftmost(t.left), t.val, t.right)
  }

  /** Unlink the root; with two children its in-order successor takes its place. */
  function RemoveRoot<T>(t: Tree<T>): Tree<T>
    requires t.Node?
  {
    if t.left.Leaf? then t.right
    else if t.right.Leaf? then t.left
    else Node(t.left, Leftmost(t.right), WithoutLeftmost(t.right))
  }

  /** tdelete: unlink the first node on the search path with comparison zero. */
  function TDelete<T>(t: Tree<T>, key: T, cmp: (T, T) -> int): Tree<T> {
    match t
    case Leaf => Leaf
    case Node(l, v, r) =>
      var c := cmp(key, v);
      if c == 0 then RemoveRoot(t)
      else if c < 0 then Node(TDelete(l, key, cmp), v, r)
      else Node(l, v, TDelete(r, key, cmp))
  }

  /** Read in order, the comparison of the key with the elements goes from positive over zero
      to negative. */
  ghost predicate Descends<T>(s: seq<T>, key: T, cmp: (T, T) -> int) {
    forall i, j :: 0 <= i < j < |s| ==>
      && (cmp(key, s[i]) < 0 ==> cmp(key, s[j]) < 0)
      && (cmp(key, s[j]) > 0 ==> cmp(key, s[i]) > 0)
  }

  ghost predicate Hits<T>(s: seq<T>, key: T, cmp: (T, T) -> int) {
    exists i :: 0 <= i < |s| && cmp(key, s[i]) == 0
  }

  function RemoveAt<T>(s: seq<T>, i: nat): seq<T>
    requires i < |s|
  {
    s[..i] + s[i + 1..]
  }

  function InsertAt<T>(s: seq<T>, i: nat, x: T): seq<T>
    requires i <= |s|
  {
    s[..i] + [x] + s[i..]
  }

  /** What a listing that descends says about its parts around one element. */
  lemma DescendsParts<T>(l: seq<T>, v: T, r: seq<T>, key: T, cmp: (T, T) -> int)
    requires Descends(l + [v] + r, key, cmp)
    ensures Descends(l, key, cmp) && Descends(r, key, cmp)
    ensures cmp(key, v) > 0 ==> forall i :: 0 <= i < |l| ==> cmp(key, l[i]) > 0
    ensures cmp(key, v) < 0 ==> forall i :: 0 <= i < |r| ==> cmp(key, r[i]) < 0
  {
    var s, n := l + [v] + r, |l|;
    assert s[n] == v;
    assert forall i :: 0 <= i < n ==> l[i] == s[i];
    assert forall i :: 0 <= i < |r| ==> r[i] == s[n + 1 + i];
  }

  lemma HitsParts<T>(l: seq<T>, v: T, r: seq<T>, key: T, cmp: (T, T) -> int)
    ensures Hits(l + [v] + r, key, cmp) <==> Hits(l, key, cmp) || cmp(key, v) == 0 || Hits(r, key, cmp)
  {
    var s, n := l + [v] + r, |l|;
    assert s[n] == v;
    assert forall i :: 0 <= i < n ==> l[i] == s[i];
    assert forall i :: 0 <= i < |r| ==> r[i] == s[n + 1 + i];
  }

  /** Completeness of a search with any comparator the listing descends for. */
  lemma {:induction false} TFindComplete<T>(t: Tree<T>, key: T, cmp: (T, T) -> int)
    requires Descends(InOrder(t), key, cmp)
    ensures TFind(t, key, cmp).Some? <==> Hits(InOrder(t), key, cmp)
  {
    if t.Node? {
      var l, r := InOrder(t.left), InOrder(t.right);
      DescendsParts(l, t.val, r, key, cmp);
      HitsParts(l, t.val, r, key, cmp);
      TFindComplete(t.left, key, cmp);
      TFindComplete(t.right, key, cmp);
    }
  }

  lemma {:induction false} TFindSound<T>(t: Tree<T>, key: T, cmp: (T, T) -> int)
    requires TFind(t, key, cmp).Some?
    ensures cmp(key, TFind(t, key, cmp).value) == 0 && TFind(t, key, cmp).value in InOrder(t)
  {
    if cmp(key, t.val) < 0 {
      TFindSound(t.left, key, cmp);
    } else if cmp(key, t.val) > 0 {
      TFindSound(t.right, key, cmp);
    }
  }

  lemma {:induction false} LeftmostListing<T>(t: Tree<T>)
    requires t.Node?
    ensures InOrder(t) == [Leftmost(t)] + InOrder(WithoutLeftmost(t))
  {
    if t.left.Node? { LeftmostListing(t.left); }
  }

  lemma RemoveRootListing<T>(t: Tree<T>)
    requires t.Node?
    ensures InOrder(RemoveRoot(t)) == RemoveAt(InOrder(t), |InOrder(t.left)|)
  {
    assert RemoveAt(InOrder(t), |InOrder(t.left)|) == InOrder(t.left) + InOrder(t.right);
    if t.left.Node? && t.right.Node? { LeftmostListing(t.right); }
  }

  lemma RemoveAtParts<T>(l: seq<T>, v: T, r: seq<T>, i: nat)
    ensures i < |l| ==> RemoveAt(l + [v] + r, i) == RemoveAt(l, i) + [v] + r
    ensures i < |r| ==> RemoveAt(l + [v] + r, |l| + 1 + i) == l + [v] + RemoveAt(r, i)
  {
  }

  lemma InsertAtParts<T>(l: seq<T>, v: T, r: seq<T>, i: nat, x: T)
    ensures i <= |l| ==> InsertAt(l + [v] + r, i, x) == InsertAt(l, i, x) + [v] + r
    ensures i <= |r| ==> InsertAt(l + [v] + r, |l| + 1 + i, x) == l + [v] + InsertAt(r, i, x)
  {
  }

  /** Delete with the comparator of a find removes the very element that find returned, and
      nothing else. */
  lemma {:induction false} TDeleteRemovesFound<T>(t: Tree<T>, key: T, cmp: (T, T) -> int) returns (i: nat)
    requires TFind(t, key, cmp).Some?
    ensures i < |InOrder(t)| && InOrder(t)[i] == TFind(t, key, cmp).value
    ensures InOrder(TDelete(t, key, cmp)) == RemoveAt(InOrder(t), i)
  {
    var l, r := InOrder(t.left), InOrder(t.right);
    if cmp(key, t.val) == 0 {
      i := |l|;
      RemoveRootListing(t);
    } else if cmp(key, t.val) < 0 {
      i := TDeleteRemovesFound(t.left, key, cmp);
      RemoveAtParts(l, t.val, r, i);
    } else {
      var k := TDeleteRemovesFound(t.right, key, cmp);
      i := |l| + 1 + k;
      RemoveAtParts(l, t.val, r, k);
    }
  }

  /** The first i elements are the ones the key is greater than. */
  ghost predicate CutAt<T>(s: seq<T>, key: T, cmp: (T, T) -> int, i: nat) {
    i <= |s| && forall j :: 0 <= j < |s| ==> (j < i <==> cmp(key, s[j]) > 0)
  }

  lemma CutParts<T>(l: seq<T>, v: T, r: seq<T>, key: T, cmp: (T, T) -> int, i: nat)
    requires Descends(l + [v] + r, key, cmp)
    ensures cmp(key, v) < 0 && CutAt(l, key, cmp, i) ==> CutAt(l + [v] + r, key, cmp, i)
    ensures cmp(key, v) > 0 && CutAt(r, key, cmp, i) ==> CutAt(l + [v] + r, key, cmp, |l| + 1 + i)
  {
    DescendsParts(l, v, r, key, cmp);
    var s := l + [v] + r;
    assert forall j :: 0 <= j < |s| ==>
      s[j] == if j < |l| then l[j] else if j == |l| then v else r[j - |l| - 1];
  }

  /** Insertion of a key nothing compares equal to: the key lands between the elements it is
      greater than and those it is smaller than. */
  lemma {:induction false} TSearchInserts<T>(t: Tree<T>, key: T, cmp: (T, T) -> int) returns (i: nat)
    requires Descends(InOrder(t), key, cmp) && !Hits(InOrder(t), key, cmp)
    ensures CutAt(InOrder(t), key, cmp, i)
    ensures InOrder(TSearch(t, key, cmp)) == InsertAt(InOrder(t), i, key)
  {
    if t.Leaf? {
      i := 0;
    } else {
      var l, r := InOrder(t.left), InOrder(t.right);
      DescendsParts(l, t.val, r, key, cmp);
      HitsParts(l, t.val, r, key, cmp);
      if cmp(key, t.val) < 0 {
        i := TSearchInserts(t.left, key, cmp);
        CutParts(l, t.val, r, key, cmp, i);
        InsertAtParts(l, t.val, r, i, key);
      } else {
        var k := TSearchInserts(t.right, key, cmp);
        i := |l| + 1 + k;
        CutParts(l, t.val, r, key, cmp, k);
        InsertAtParts(l, t.val, r, k, key);
      }
    }
  }

  /** Insertion of a key the search finds changes nothing. */
  lemma {:induction false} TSearchKeeps<T>(t: Tree<T>, key: T, cmp: (T, T) -> int)
    requires TFind(t, key, cmp).Some?
    ensures TSearch(t, key, cmp) == t
  {
    if cmp(key, t.val) < 0 {
      TSearchKeeps(t.left, key, cmp);
    } else if cmp(key, t.val) > 0 {
      TSearchKeeps(t.right, key, cmp);
    }
  }
}
