/** Who holds what a pool has handed out: a map from pages to the pointers each page uses, in
    order. What conservation means is one predicate for all four pools. */
module Ledger {

  type Holdings<T> = map<nat, seq<T>>

  ghost predicate Distinct<T>(s: seq<T>) {
    forall i, j :: 0 <= i < j < |s| ==> s[i] != s[j]
  }

  ghost predicate Held<T>(m: Holdings<T>, x: T) {
    exists p :: p in m && x in m[p]
  }

  /** Page p draws one more pointer. */
  function Drawn<T>(m: Holdings<T>, p: nat, x: T): Holdings<T> {
    m[p := (if p in m then m[p] else []) + [x]]
  }

  /** Everything outstanding is in transit or held by exactly one page, once; and nothing else
      is held. */
  ghost predicate Accounts<T>(m: Holdings<T>, out: set<T>, transit: set<T>) {
    && transit <= out
    && (forall p, x :: p in m && x in m[p] ==> x in out && x !in transit)
    && (forall p, q, x :: p in m && q in m && x in m[p] && x in m[q] ==> p == q)
    && (forall p :: p in m ==> Distinct(m[p]))
    && (forall x :: x in out && x !in transit ==> Held(m, x))
  }

  lemma Allocated<T>(m: Holdings<T>, out: set<T>, transit: set<T>, x: T)
    requires Accounts(m, out, transit) && x !in out
    ensures Accounts(m, out + {x}, transit + {x})
  {
  }

  lemma Withdrawn<T>(m: Holdings<T>, out: set<T>, transit: set<T>, x: T)
    requires Accounts(m, out, transit) && x in transit
    ensures Accounts(m, out - {x}, transit - {x})
  {
  }

  /** A pointer in transit becomes the newest of page p. */
  lemma Attached<T>(m: Holdings<T>, out: set<T>, transit: set<T>, p: nat, x: T)
    requires Accounts(m, out, transit) && x in transit
    ensures Accounts(Drawn(m, p, x), out, transit - {x})
  {
    var m' := Drawn(m, p, x);
    forall y | y in out && y !in transit - {x}
      ensures Held(m', y)
    {
      if y == x {
        assert y in m'[p];
      } else {
        var q :| q in m && y in m[q];
        assert y in m'[q];
      }
    }
  }

  lemma NewestIsOut<T>(m: Holdings<T>, out: set<T>, transit: set<T>, p: nat)
    requires Accounts(m, out, transit) && p in m && m[p] != []
    ensures m[p][|m[p]| - 1] in out
  {
  }

  /** The newest pointer of page p goes into transit. */
  lemma Detached<T>(m: Holdings<T>, out: set<T>, transit: set<T>, p: nat)
    requires Accounts(m, out, transit) && p in m && m[p] != []
    ensures var n := |m[p]| - 1; Accounts(m[p := m[p][..n]], out, transit + {m[p][n]})
  {
    var n := |m[p]| - 1;
    var m' := m[p := m[p][..n]];
    assert m[p] == m[p][..n] + [m[p][n]];
    forall y | y in out && y !in transit + {m[p][n]}
      ensures Held(m', y)
    {
      var q :| q in m && y in m[q];
      assert y in m'[q];
    }
  }

  // ---- How many pointers are held -----------------------------------------------------------------

  ghost function Lengths<T>(m: Holdings<T>): map<nat, nat> {
    map p | p in m :: |m[p]|
  }

  ghost function Pick(lens: map<nat, nat>): (p: nat)
    requires lens != map[]
    ensures p in lens
  {
    assert lens.Keys != {} by { assert lens.Keys == {} ==> lens == map[]; }
    var p :| p in lens;
    p
  }

  ghost function Sum(lens: map<nat, nat>): nat
    decreases |lens|
  {
    if lens == map[] then 0
    else
      var p := Pick(lens);
      SmallerWithout(lens, p);
      lens[p] + Sum(lens - {p})
  }

  lemma SmallerWithout(lens: map<nat, nat>, p: nat)
    requires p in lens
    ensures |lens - {p}| == |lens| - 1
  {
    assert (lens - {p}).Keys == lens.Keys - {p};
    assert |(lens - {p}).Keys| == |lens - {p}| && |lens.Keys| == |lens|;
  }

  lemma {:induction false} SumOfOnes(lens: map<nat, nat>)
    requires forall p :: p in lens ==> lens[p] == 1
    ensures Sum(lens) == |lens|
    decreases |lens|
  {
    if lens != map[] {
      var p := Pick(lens);
      SmallerWithout(lens, p);
      SumOfOnes(lens - {p});
    }
  }

  lemma {:induction false} DistinctSize<T>(s: seq<T>)
    requires Distinct(s)
    ensures |set x | x in s| == |s|
    decreases |s|
  {
    if s == [] {
      assert (set x | x in s) == {};
    } else {
      var init := s[..|s| - 1];
      DistinctSize(init);
      assert (set x | x in s) == (set x | x in init) + {s[|s| - 1]} by {
        assert s == init + [s[|s| - 1]];
      }
    }
  }

  /** Without what page p holds, the accounts are still right. */
  lemma WithoutPage<T>(m: Holdings<T>, out: set<T>, p: nat)
    requires Accounts(m, out, {}) && p in m
    ensures Accounts(m - {p}, out - (set x | x in m[p]), {})
    ensures (set x | x in m[p]) <= out
  {
    var m', out' := m - {p}, out - (set x | x in m[p]);
    forall x | x in out'
      ensures Held(m', x)
    {
      var q :| q in m && x in m[q];
      assert q in m' && x in m'[q];
    }
  }

  /** What is outstanding is as much as the pages hold together. */
  lemma {:induction false} CountHeld<T>(m: Holdings<T>, out: set<T>)
    requires Accounts(m, out, {})
    ensures |out| == Sum(Lengths(m))
    decreases |m|
  {
    hide Accounts, Distinct, Lengths;
    if Lengths(m) == map[] {
      NothingHeld(m, out);
    } else {
      var p := Pick(Lengths(m));
      KeysOfLengths(m);
      var mine := set x | x in m[p];
      WithoutPage(m, out, p);
      DistinctHere(m, out, p);
      DistinctSize(m[p]);
      SmallerHoldings(m, p);
      CountHeld(m - {p}, out - mine);
      assert |out| == |out - mine| + |mine|;
      LengthsWithout(m, p);
    }
  }

  lemma KeysOfLengths<T>(m: Holdings<T>)
    ensures forall p :: p in Lengths(m) <==> p in m
    ensures forall p :: p in m ==> Lengths(m)[p] == |m[p]|
  {
  }

  lemma LengthsWithout<T>(m: Holdings<T>, p: nat)
    ensures Lengths(m - {p}) == Lengths(m) - {p}
  {
  }

  lemma DistinctHere<T>(m: Holdings<T>, out: set<T>, p: nat)
    requires Accounts(m, out, {}) && p in m
    ensures Distinct(m[p])
  {
  }

  lemma SmallerHoldings<T>(m: Holdings<T>, p: nat)
    requires p in m
    ensures |m - {p}| < |m|
  {
    assert (m - {p}).Keys == m.Keys - {p};
    assert |(m - {p}).Keys| == |m - {p}| && |m.Keys| == |m|;
  }

  lemma NothingHeld<T>(m: Holdings<T>, out: set<T>)
    requires Accounts(m, out, {}) && Lengths(m) == map[]
    ensures out == {} && Sum(Lengths(m)) == 0
  {
    assert forall p :: p in m ==> p in Lengths(m);
    assert forall x :: x in out ==> Held(m, x);
  }

  lemma LengthsOf<T>(m: Holdings<T>, lens: map<nat, nat>)
    requires m.Keys == lens.Keys && forall p :: p in m ==> |m[p]| == lens[p]
    ensures Lengths(m) == lens
  {
  }
}
