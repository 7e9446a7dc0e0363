/** The AVX2 comparer, label by label, and the byte loop it replaces.

    Vector registers hold one boolean per lane (an all-ones or an all-zeros byte of vpcmpeqb);
    general registers are integers, with 16-, 32- and 64-bit wrap-around written out. */
module Avx2 {
  import opened Memory

  // ---- Masks ---------------------------------------------------------------------------

  type Lanes = seq<bool>

  const VEC_SIZE := 32

  function Pow2(n: nat): (r: nat)
    ensures r >= 1
  {
    if n == 0 then 1 else 2 * Pow2(n - 1)
  }

  /** vpmovmskb: lane i becomes bit i. */
  function MoveMask(l: Lanes): nat {
    if l == [] then 0 else (if l[0] then 1 else 0) + 2 * MoveMask(l[1..])
  }

  /** subl */
  function Sub32(x: int, y: int): (r: nat)
    ensures r < 0x1_0000_0000
  {
    (x - y) % 0x1_0000_0000
  }

  function TrailingZeros(x: nat): nat
    requires x > 0
  {
    if x % 2 == 1 then 0 else 1 + TrailingZeros(x / 2)
  }

  /** tzcntl */
  function Tzcnt32(x: nat): nat {
    if x == 0 then 32 else TrailingZeros(x)
  }

  /** The first lane that compared unequal; |l| when all compared equal. */
  function FirstFalse(l: Lanes): (k: nat)
    ensures k <= |l|
    ensures forall j :: 0 <= j < k ==> l[j]
    ensures k < |l| ==> !l[k]
  {
    if l == [] || !l[0] then 0 else 1 + FirstFalse(l[1..])
  }

  lemma {:induction false} TrailingZerosNegate(y: nat, w: nat)
    requires 0 < y < Pow2(w)
    ensures TrailingZeros(Pow2(w) - y) == TrailingZeros(y)
    decreases w
  {
    assert Pow2(w) == 2 * Pow2(w - 1);
    if y % 2 == 0 {
      TrailingZerosNegate(y / 2, w - 1);
      assert (Pow2(w) - y) / 2 == Pow2(w - 1) - y / 2;
    }
  }

  /** The distance of a mask from the full mask is the mask of the unequal lanes. */
  lemma {:induction false} MaskDistance(l: Lanes)
    ensures MoveMask(l) <= Pow2(|l|) - 1
    ensures FirstFalse(l) == |l| <==> MoveMask(l) == Pow2(|l|) - 1
    ensures FirstFalse(l) < |l| ==> TrailingZeros(Pow2(|l|) - 1 - MoveMask(l)) == FirstFalse(l)
  {
    if l != [] {
      MaskDistance(l[1..]);
      var d, d1 := Pow2(|l|) - 1 - MoveMask(l), Pow2(|l| - 1) - 1 - MoveMask(l[1..]);
      assert d == (if l[0] then 0 else 1) + 2 * d1;
      if l[0] && FirstFalse(l) < |l| {
        assert d / 2 == d1;
      }
    }
  }

  lemma {:induction false} Pow2AtMost(n: nat)
    requires n <= 32
    ensures Pow2(n) <= 0x1_0000_0000
  {
    Pow2Of32();
    Pow2Monotone(n, 32);
  }

  lemma {:induction false} Pow2Monotone(a: nat, b: nat)
    requires a <= b
    ensures Pow2(a) <= Pow2(b)
  {
    if a < b { Pow2Monotone(a, b - 1); }
  }

  /** The lemma behind every exit: subtracting the full mask in 32-bit arithmetic leaves zero
      exactly when every lane is equal, and otherwise as many trailing zeros as the index of the
      first unequal lane. Covers the 32-lane and the 16-lane form. */
  lemma {:induction false} MaskFindsFirstUnequal(l: Lanes)
    requires |l| <= 32
    ensures Sub32(MoveMask(l), Pow2(|l|) - 1) == 0 <==> FirstFalse(l) == |l|
    ensures FirstFalse(l) < |l| ==> Tzcnt32(Sub32(MoveMask(l), Pow2(|l|) - 1)) == FirstFalse(l)
  {
    MaskDistance(l);
    Pow2AtMost(|l|);
    NegatedDistance(MoveMask(l), Pow2(|l|) - 1);
  }

  lemma {:induction false} NegatedDistance(mask: nat, full: nat)
    requires mask <= full < 0x1_0000_0000
    ensures Sub32(mask, full) == 0 <==> mask == full
    ensures mask < full ==> Tzcnt32(Sub32(mask, full)) == TrailingZeros(full - mask)
  {
    if mask < full {
      Pow2Of32();
      TrailingZerosNegate(full - mask, 32);
      assert Sub32(mask, full) == 0x1_0000_0000 - (full - mask);
    }
  }

  lemma Pow2Of32()
    ensures Pow2(32) == 0x1_0000_0000
  {
    assert Pow2(8) == 256;
    assert Pow2(16) == 0x1_0000;
    assert Pow2(24) == 0x100_0000;
  }

  // ---- Vector loads and compares ----------------------------------------------------------

  /** vmovdqu (rsi) followed by vpcmpeqb (rdi): w lanes. */
  function CompareLanes(m: Mem, rdi: int, rsi: int, w: nat): (l: Lanes)
    ensures |l| == w
  {
    seq(w, i requires 0 <= i < w => m(rdi + i) == m(rsi + i))
  }

  /** The outcome every exit has to deliver for the range [lo, hi): a zero result for equal ranges,
      otherwise the address of the first difference in the cell rcx points to. */
  ghost predicate Decides(m: Mem, lo: int, hi: int, d: int, eax: nat, cell: int) {
    if eax == 0 then AllEqual(m, lo, hi, d)
    else lo <= cell < hi && AllEqual(m, lo, cell, d) && !EqualAt(m, cell, d)
  }

  lemma LanesLocateDifference(m: Mem, rdi: int, rsi: int, w: nat, k: nat)
    requires k <= w
    requires forall j :: 0 <= j < k ==> CompareLanes(m, rdi, rsi, w)[j]
    ensures AllEqual(m, rdi, rdi + k, rsi - rdi)
    ensures k < w && !CompareLanes(m, rdi, rsi, w)[k] ==> !EqualAt(m, rdi + k, rsi - rdi)
  {
    var d := rsi - rdi;
    forall x | rdi <= x < rdi + k
      ensures EqualAt(m, x, d)
    {
      assert CompareLanes(m, rdi, rsi, w)[x - rdi];
    }
  }

  /** Load, compare, move the mask and subtract the full mask: the sequence that every size class
      of at least eight bytes repeats. Lanes from `loaded` on are the zeroed upper half of an
      eight-byte vmovq, which compare equal. */
  method CompareVec(m: Mem, rdi: int, rsi: int, loaded: nat, width: nat) returns (eax: nat)
    requires loaded <= width <= 32
    ensures eax == 0 <==> AllEqual(m, rdi, rdi + loaded, rsi - rdi)
    ensures eax != 0 ==> FirstDiffersAt(m, rdi, rsi, loaded, Tzcnt32(eax))
  {
    var lanes := CompareLanes(m, rdi, rsi, loaded) + seq(width - loaded, _ => true);
    eax := Sub32(MoveMask(lanes), Pow2(width) - 1);
    MaskFindsFirstUnequal(lanes);
    var k := FirstFalse(lanes);
    assert forall j :: 0 <= j < k && j < loaded ==> lanes[j] == CompareLanes(m, rdi, rsi, loaded)[j];
    LanesLocateDifference(m, rdi, rsi, loaded, if k < loaded then k else loaded);
  }

  /** first_vec, first_vec_x1, first_vec_x2 and the fourth vector of l4x_vec_end; they differ in
      the displacement only. */
  method FirstVec(m: Mem, disp: nat, rdi: int, rsi: int, mask: nat, ghost w: nat)
    returns (eax: nat, cell: int)
    requires mask != 0 && FirstDiffersAt(m, rdi + disp, rsi + disp, w, Tzcnt32(mask))
    ensures eax != 0 && Decides(m, rdi + disp, rdi + disp + w, rsi - rdi, eax, cell)
  {
    var r8 := Tzcnt32(mask);
    assert !EqualAt(m, rdi + disp + r8, rsi - rdi);
    eax := Sub32(m(rdi + disp + r8), m(rsi + disp + r8));
    cell := rdi + disp + r8;
  }

  /** CompareVec, then the jump to first_vec when the difference is non-zero. */
  method TestVec(m: Mem, rdi: int, rsi: int, loaded: nat, width: nat, cell0: int)
    returns (eax: nat, cell: int)
    requires loaded <= width <= 32
    ensures Decides(m, rdi, rdi + loaded, rsi - rdi, eax, cell)
  {
    cell := cell0;
    eax := CompareVec(m, rdi, rsi, loaded, width);
    if eax != 0 {
      eax, cell := FirstVec(m, 0, rdi, rsi, eax, loaded);
    }
  }

  // ---- Size classes of 32 bytes and more --------------------------------------------------

  /** last_vec: the 32 bytes that end the range, overlapping what is known to be equal. */
  method LastVec(m: Mem, rdi: int, rsi: int, rdx: nat, cell0: int, ghost lo: int)
    returns (eax: nat, cell: int)
    requires lo <= rdi + rdx - VEC_SIZE
    requires AllEqual(m, lo, rdi + rdx - VEC_SIZE, rsi - rdi)
    ensures Decides(m, lo, rdi + rdx, rsi - rdi, eax, cell)
  {
    eax, cell := TestVec(m, rdi + rdx - VEC_SIZE, rsi + rdx - VEC_SIZE, VEC_SIZE, VEC_SIZE, cell0);
  }

  /** last_2x_vec, falling through into last_vec. */
  method Last2xVec(m: Mem, rdi: int, rsi: int, rdx: nat, cell0: int, ghost lo: int)
    returns (eax: nat, cell: int)
    requires VEC_SIZE <= rdx <= 2 * VEC_SIZE && lo <= rdi
    requires AllEqual(m, lo, rdi, rsi - rdi)
    ensures Decides(m, lo, rdi + rdx, rsi - rdi, eax, cell)
  {
    eax, cell := TestVec(m, rdi, rsi, VEC_SIZE, VEC_SIZE, cell0);
    if eax == 0 {
      eax, cell := LastVec(m, rdi, rsi, rdx, cell, lo);
    }
  }

  /** last_4x_vec: two vectors from the front and two from the back. */
  method Last4xVec(m: Mem, rdi: int, rsi: int, rdx: nat, cell0: int, ghost lo: int)
    returns (eax: nat, cell: int)
    requires 2 * VEC_SIZE <= rdx <= 4 * VEC_SIZE && lo <= rdi
    requires AllEqual(m, lo, rdi, rsi - rdi)
    ensures Decides(m, lo, rdi + rdx, rsi - rdi, eax, cell)
  {
    eax, cell := TestVec(m, rdi, rsi, VEC_SIZE, VEC_SIZE, cell0);
    if eax != 0 { return; }
    var a, b := rdi + VEC_SIZE, rsi + VEC_SIZE;
    eax, cell := TestVec(m, a, b, VEC_SIZE, VEC_SIZE, cell);
    if eax != 0 { return; }
    a, b := a + rdx - 3 * VEC_SIZE, b + rdx - 3 * VEC_SIZE;
    eax, cell := TestVec(m, a, b, VEC_SIZE, VEC_SIZE, cell);
    if eax != 0 { return; }
    a, b := a + VEC_SIZE, b + VEC_SIZE;
    eax, cell := TestVec(m, a, b, VEC_SIZE, VEC_SIZE, cell);
  }

  /** Four vectors compared and and-ed; vptest says whether all lanes are equal. On a difference,
      l4x_vec_end looks the vectors through in order. */
  method TestFourVec(m: Mem, rdi: int, rsi: int, cell0: int) returns (eax: nat, cell: int)
    ensures Decides(m, rdi, rdi + 4 * VEC_SIZE, rsi - rdi, eax, cell)
  {
    var e1 := CompareVec(m, rdi, rsi, VEC_SIZE, VEC_SIZE);
    var e2 := CompareVec(m, rdi + VEC_SIZE, rsi + VEC_SIZE, VEC_SIZE, VEC_SIZE);
    var e3 := CompareVec(m, rdi + 2 * VEC_SIZE, rsi + 2 * VEC_SIZE, VEC_SIZE, VEC_SIZE);
    var e4 := CompareVec(m, rdi + 3 * VEC_SIZE, rsi + 3 * VEC_SIZE, VEC_SIZE, VEC_SIZE);
    if e1 == e2 == e3 == e4 == 0 {
      return 0, cell0;
    }
    eax, cell := FourVecEnd(m, rdi, rsi, e1, e2, e3, e4);
  }

  /** l4x_vec_end */
  method FourVecEnd(m: Mem, rdi: int, rsi: int, e1: nat, e2: nat, e3: nat, e4: nat)
    returns (eax: nat, cell: int)
    requires VecMask(m, rdi, rsi, e1)
    requires VecMask(m, rdi + VEC_SIZE, rsi + VEC_SIZE, e2)
    requires VecMask(m, rdi + 2 * VEC_SIZE, rsi + 2 * VEC_SIZE, e3)
    requires VecMask(m, rdi + 3 * VEC_SIZE, rsi + 3 * VEC_SIZE, e4)
    requires !(e1 == e2 == e3 == e4 == 0)
    ensures eax != 0 && Decides(m, rdi, rdi + 4 * VEC_SIZE, rsi - rdi, eax, cell)
  {
    if e1 != 0 {
      eax, cell := FirstVec(m, 0, rdi, rsi, e1, VEC_SIZE);
    } else if e2 != 0 {
      eax, cell := FirstVec(m, VEC_SIZE, rdi, rsi, e2, VEC_SIZE);
    } else if e3 != 0 {
      eax, cell := FirstVec(m, 2 * VEC_SIZE, rdi, rsi, e3, VEC_SIZE);
    } else {
      eax, cell := FirstVec(m, 3 * VEC_SIZE, rdi, rsi, e4, VEC_SIZE);
    }
  }

  /** What one 32-byte compare leaves in eax. */
  ghost predicate VecMask(m: Mem, rdi: int, rsi: int, eax: nat) {
    && (eax == 0 <==> AllEqual(m, rdi, rdi + VEC_SIZE, rsi - rdi))
    && (eax != 0 ==> FirstDiffersAt(m, rdi, rsi, VEC_SIZE, Tzcnt32(eax)))
  }

  /** more_8x_vec and loop_4x_vec: align the first pointer, then 128 bytes a round. */
  method More8xVec(m: Mem, rdi0: int, rsi0: int, rdx0: nat, cell0: int)
    returns (eax: nat, cell: int)
    requires rdx0 > 8 * VEC_SIZE
    ensures Decides(m, rdi0, rdi0 + rdx0, rsi0 - rdi0, eax, cell)
  {
    eax, cell := TestVec(m, rdi0, rsi0, VEC_SIZE, VEC_SIZE, cell0);
    if eax != 0 { return; }
    var r8 := rdi0 % VEC_SIZE - VEC_SIZE;
    var rsi, rdi, rdx := rsi0 - r8, rdi0 - r8, rdx0 + r8;
    assert rdi % VEC_SIZE == 0;
    eax, cell := TestFourVec(m, rdi, rsi, cell);
    if eax != 0 { return; }
    rdi, rsi, rdx := rdi + 4 * VEC_SIZE, rsi + 4 * VEC_SIZE, rdx - 4 * VEC_SIZE;
    while rdx >= 4 * VEC_SIZE
      invariant rdx >= 0 && rdi + rdx == rdi0 + rdx0 && rsi - rdi == rsi0 - rdi0
      invariant rdi0 + VEC_SIZE < rdi && rdi % VEC_SIZE == 0
      invariant AllEqual(m, rdi0, rdi, rsi - rdi)
    {
      eax, cell := TestFourVec(m, rdi, rsi, cell);
      if eax != 0 { return; }
      rdi, rsi, rdx := rdi + 4 * VEC_SIZE, rsi + 4 * VEC_SIZE, rdx - 4 * VEC_SIZE;
    }
    if rdx <= VEC_SIZE {
      eax, cell := LastVec(m, rdi, rsi, rdx, cell, rdi0);
    } else if rdx <= 2 * VEC_SIZE {
      eax, cell := Last2xVec(m, rdi, rsi, rdx, cell, rdi0);
    } else {
      eax, cell := Last4xVec(m, rdi, rsi, rdx, cell, rdi0);
    }
  }

  /** Lengths from 32 on. */
  method AtLeastVec(m: Mem, rdi: int, rsi: int, rdx: nat, cell0: int)
    returns (eax: nat, cell: int)
    requires rdx >= VEC_SIZE
    ensures Decides(m, rdi, rdi + rdx, rsi - rdi, eax, cell)
  {
    eax, cell := TestVec(m, rdi, rsi, VEC_SIZE, VEC_SIZE, cell0);
    if eax != 0 { return; }
    if rdx <= 2 * VEC_SIZE {
      eax, cell := LastVec(m, rdi, rsi, rdx, cell, rdi);
    } else if rdx > 8 * VEC_SIZE {
      eax, cell := More8xVec(m, rdi, rsi, rdx, cell);
    } else if rdx < 4 * VEC_SIZE {
      eax, cell := Last4xVec(m, rdi, rsi, rdx, cell, rdi);
    } else {
      eax, cell := TestFourVec(m, rdi, rsi, cell);
      if eax != 0 { return; }
      eax, cell := TestFourVec(m, rdi + rdx - 4 * VEC_SIZE, rsi + rdx - 4 * VEC_SIZE, cell);
    }
  }

  // ---- Size classes below 32 bytes ---------------------------------------------------------

  /** Eight to fifteen bytes: two overlapping eight-byte loads, sixteen lanes each. */
  method Between8And15(m: Mem, rdi: int, rsi: int, rdx: nat, cell0: int)
    returns (eax: nat, cell: int)
    requires 8 <= rdx < 16
    ensures Decides(m, rdi, rdi + rdx, rsi - rdi, eax, cell)
  {
    eax, cell := TestVec(m, rdi, rsi, 8, 16, cell0);
    if eax != 0 { return; }
    eax, cell := TestVec(m, rdi + rdx - 8, rsi + rdx - 8, 8, 16, cell);
  }

  /** Sixteen to 31 bytes: two overlapping sixteen-byte loads. */
  method Between16And31(m: Mem, rdi: int, rsi: int, rdx: nat, cell0: int)
    returns (eax: nat, cell: int)
    requires 16 <= rdx < 32
    ensures Decides(m, rdi, rdi + rdx, rsi - rdi, eax, cell)
  {
    eax, cell := TestVec(m, rdi, rsi, 16, 16, cell0);
    if eax != 0 { return; }
    eax, cell := TestVec(m, rdi + rdx - 16, rsi + rdx - 16, 16, 16, cell);
  }

  /** movbe of four bytes */
  function BigEndian32(m: Mem, a: int): (r: nat)
    ensures r < 0x1_0000_0000
  {
    m(a) * 0x100_0000 + m(a + 1) * 0x1_0000 + m(a + 2) * 0x100 + m(a + 3)
  }

  /** movw, movzwl */
  function LittleEndian16(m: Mem, a: int): (r: nat)
    ensures r < 0x1_0000
  {
    m(a) + 0x100 * m(a + 1)
  }

  /** subq */
  function Sub64(x: int, y: int): nat {
    (x - y) % 0x1_0000_0000_0000_0000
  }

  /** movw into ax keeps the upper half of eax; subw then acts on the lower half only. */
  function SubLowWord(rax: nat, x: nat, y: nat): (eax: nat)
    ensures eax < 0x1_0000_0000
    ensures x < 0x1_0000 && y < 0x1_0000 && x != y ==> eax % 0x1_0000 != 0 && eax != 0
  {
    rax / 0x1_0000 % 0x1_0000 * 0x1_0000 + (x - y) % 0x1_0000
  }

  lemma BigEndianEqual(m: Mem, a: int, b: int)
    ensures BigEndian32(m, a) == BigEndian32(m, b) <==> AllEqual(m, a, a + 4, b - a)
  {
    var d := b - a;
    assert EqualAt(m, a, d) <==> m(a) == m(b);
    assert EqualAt(m, a + 1, d) <==> m(a + 1) == m(b + 1);
    assert EqualAt(m, a + 2, d) <==> m(a + 2) == m(b + 2);
    assert EqualAt(m, a + 3, d) <==> m(a + 3) == m(b + 3);
  }

  lemma Words(a0: byte, a1: byte, b0: byte, b1: byte)
    ensures var x, y := a0 + 0x100 * a1, b0 + 0x100 * b1;
      && ((x - y) % 0x1_0000 == 0 <==> x == y) && (x == y <==> a0 == b0 && a1 == b1)
      && x % 0x100 == a0 && y % 0x100 == b0 && x / 0x100 == a1
      && ((a0 - b0) % 0x100 == 0 <==> a0 == b0)
  {
  }

  /** What subtracting two words, and their low bytes, says about the four bytes. */
  lemma WordDifference(m: Mem, a: int, b: int)
    ensures var x, y := LittleEndian16(m, a), LittleEndian16(m, b);
      && ((x - y) % 0x1_0000 == 0 <==> x == y) && (x == y <==> m(a) == m(b) && m(a + 1) == m(b + 1))
      && ((x % 0x100 - y % 0x100) % 0x100 == 0 <==> m(a) == m(b)) && x / 0x100 == m(a + 1)
  {
    Words(m(a), m(a + 1), m(b), m(b + 1));
  }

  /** One two-byte step of between_4_7: the low byte decides which of the two differs. */
  method WordStep(m: Mem, rdi: int, rsi: int, at: nat, rax: nat, cell0: int)
    returns (eax: nat, cell: int)
    ensures Decides(m, rdi + at, rdi + at + 2, rsi - rdi, eax, cell)
  {
    hide LittleEndian16;
    WordDifference(m, rdi + at, rsi + at);
    var ax: int, r8w: int := LittleEndian16(m, rdi + at), LittleEndian16(m, rsi + at);
    cell := cell0;
    assert EqualAt(m, rdi + at, rsi - rdi) <==> m(rdi + at) == m(rsi + at);
    assert EqualAt(m, rdi + at + 1, rsi - rdi) <==> m(rdi + at + 1) == m(rsi + at + 1);
    if (ax - r8w) % 0x1_0000 == 0 {
      return 0, cell;
    }
    eax := SubLowWord(rax, ax, r8w);
    var r9b := (ax % 0x100 - r8w % 0x100) % 0x100;
    cell := if r9b != 0 then rdi + at else rdi + at + 1;
  }

  /** The eight bytes a composite of two overlapping loads holds: what subq and its lower half say. */
  lemma CompositeDifference(h1: nat, l1: nat, h2: nat, l2: nat)
    requires h1 < 0x1_0000_0000 && l1 < 0x1_0000_0000 && h2 < 0x1_0000_0000 && l2 < 0x1_0000_0000
    ensures var rax := Sub64(h1 * 0x1_0000_0000 + l1, h2 * 0x1_0000_0000 + l2);
            && (rax == 0 <==> h1 == h2 && l1 == l2)
            && (h1 == h2 ==> (rax % 0x1_0000_0000 == 0 <==> l1 == l2))
  {
    if h1 == h2 && l1 < l2 {
      assert Sub64(h1 * 0x1_0000_0000 + l1, h2 * 0x1_0000_0000 + l2) == 0x1_0000_0000_0000_0000 + l1 - l2;
    }
  }

  /** The loads, shifts and subq that open between_4_7. */
  method CompositeSub(m: Mem, rdi: int, rsi: int, rdx: nat) returns (rax: nat)
    requires 4 <= rdx < 8
    ensures rax == 0 <==> AllEqual(m, rdi, rdi + rdx, rsi - rdi)
    ensures rax % 0x1_0000_0000 == 0 && AllEqual(m, rdi, rdi + 4, rsi - rdi) ==> rax == 0
  {
    var h1, h2 := BigEndian32(m, rdi), BigEndian32(m, rsi);
    var l1, l2 := BigEndian32(m, rdi + rdx - 4), BigEndian32(m, rsi + rdx - 4);
    rax := Sub64(h1 * 0x1_0000_0000 + l1, h2 * 0x1_0000_0000 + l2);
    BigEndianEqual(m, rdi, rsi);
    BigEndianEqual(m, rdi + rdx - 4, rsi + rdx - 4);
    CompositeDifference(h1, l1, h2, l2);
  }

  /** between_4_7: two overlapping big-endian loads say whether there is a difference; where it
      is, is then found two bytes at a time. */
  method Between4And7(m: Mem, rdi: int, rsi: int, rdx: nat, cell0: int)
    returns (eax: nat, cell: int)
    requires 4 <= rdx < 8
    ensures Decides(m, rdi, rdi + rdx, rsi - rdi, eax, cell)
  {
    var rax := CompositeSub(m, rdi, rsi, rdx);
    if rax == 0 {
      return 0, cell0;
    }
    var r10 := rax;
    eax, cell := WordStep(m, rdi, rsi, 0, rax, cell0);
    if eax != 0 { return; }
    eax, cell := WordStep(m, rdi, rsi, 2, rax, cell0);
    if eax != 0 { return; }
    eax, cell := WordStep(m, rdi, rsi, 4, rax, cell0);
    if eax != 0 { return; }
    eax, cell := r10 % 0x1_0000_0000, rdi + 6;
  }

  /** between_2_3. Bits 8 to 15 of eax still hold byte 1 when the last byte is subtracted. */
  method Between2And3(m: Mem, rdi: int, rsi: int, rdx: nat) returns (eax: nat, cell: int)
    requires 2 <= rdx < 4
    ensures eax == 0 <==> CommonPrefix(m, rdi, rsi, rdx) == rdx && m(rdi + 1) == 0
    ensures eax != 0 ==>
      cell == rdi + if CommonPrefix(m, rdi, rsi, rdx) < rdx then CommonPrefix(m, rdi, rsi, rdx) else rdx - 1
  {
    hide LittleEndian16;
    WordDifference(m, rdi, rsi);
    eax := LittleEndian16(m, rdi);
    var r8 := LittleEndian16(m, rsi);
    var r9 := Sub32(eax, r8);
    assert EqualAt(m, rdi, rsi - rdi) <==> m(rdi) == m(rsi);
    assert EqualAt(m, rdi + 1, rsi - rdi) <==> m(rdi + 1) == m(rsi + 1);
    assert EqualAt(m, rdi + 2, rsi - rdi) <==> m(rdi + 2) == m(rsi + 2);
    if r9 != 0 {
      cell := if (eax % 0x100 - r8 % 0x100) % 0x100 != 0 then rdi else rdi + 1;
      eax := r9;
    } else {
      var al := (m(rdi + rdx - 1) - m(rsi + rdx - 1)) % 0x100;
      eax := eax / 0x100 * 0x100 + al;
      cell := rdi + rdx - 1;
    }
    FirstDiffersIsPrefix(m, rdi, rsi, rdx,
      if m(rdi) != m(rsi) then 0 else if m(rdi + 1) != m(rsi + 1) then 1
      else if rdx == 3 && m(rdi + 2) != m(rsi + 2) then 2 else rdx);
  }

  // ---- The two comparers ---------------------------------------------------------------------

  /** The result a caller needs from a comparer: zero exactly for equal ranges, and otherwise the
      address of the first differing byte behind the fourth argument. */
  ghost predicate Locates(m: Mem, s1: int, s2: int, n: nat, ret: int, cell: int) {
    && (ret == 0 <==> CommonPrefix(m, s1, s2, n) == n)
    && (ret != 0 ==> cell == s1 + CommonPrefix(m, s1, s2, n))
  }

  lemma DecidesLocates(m: Mem, s1: int, s2: int, n: nat, eax: nat, cell: int)
    requires Decides(m, s1, s1 + n, s2 - s1, eax, cell)
    ensures Locates(m, s1, s2, n, eax, cell)
  {
    FirstDiffersIsPrefix(m, s1, s2, n, if eax == 0 then n else cell - s1);
  }

  /** less_vec */
  method LessVec(m: Mem, rdi: int, rsi: int, rdx: nat, cell0: int) returns (eax: nat, cell: int)
    requires rdx < VEC_SIZE
    ensures rdx != 2 && rdx != 3 ==> Locates(m, rdi, rsi, rdx, eax, cell)
    ensures rdx == 2 || rdx == 3 ==>
      && (eax == 0 <==> CommonPrefix(m, rdi, rsi, rdx) == rdx && m(rdi + 1) == 0)
      && (eax != 0 ==> cell == rdi + Counted(m, rdi, rsi, rdx))
  {
    if rdx == 1 {
      eax, cell := Sub32(m(rdi), m(rsi)), rdi;
      assert EqualAt(m, rdi, rsi - rdi) <==> eax == 0;
    } else if rdx < 1 {
      eax, cell := 0, cell0;
    } else if rdx < 4 {
      eax, cell := Between2And3(m, rdi, rsi, rdx);
    } else if rdx < 8 {
      eax, cell := Between4And7(m, rdi, rsi, rdx, cell0);
    } else if rdx >= 16 {
      eax, cell := Between16And31(m, rdi, rsi, rdx, cell0);
    } else {
      eax, cell := Between8And15(m, rdi, rsi, rdx, cell0);
    }
    if rdx != 2 && rdx != 3 {
      DecidesLocates(m, rdi, rsi, rdx, eax, cell);
    }
  }

  /** The inputs on which the 2-3 byte path reports a difference between equal ranges. */
  predicate FalseAlarm(m: Mem, s1: int, s2: int, n: nat) {
    (n == 2 || n == 3) && CommonPrefix(m, s1, s2, n) == n && m(s1 + 1) != 0
  }

  /** How many bytes the caller may count as equal after the AVX2 comparer has run. */
  function Counted(m: Mem, s1: int, s2: int, n: nat): (k: nat)
    ensures k <= CommonPrefix(m, s1, s2, n)
    ensures k == CommonPrefix(m, s1, s2, n) <==> !FalseAlarm(m, s1, s2, n)
  {
    if FalseAlarm(m, s1, s2, n) then n - 1 else CommonPrefix(m, s1, s2, n)
  }

  /** memcmp_avx2_asm: meets its purpose exactly when it raises no false alarm, in particular for
      every length other than 2 and 3; a false alarm points at the last byte. */
  method MemcmpAvx2(m: Mem, s1: int, s2: int, n: nat, cell0: int) returns (eax: nat, cell: int)
    ensures Locates(m, s1, s2, n, eax, cell) <==> !FalseAlarm(m, s1, s2, n)
    ensures FalseAlarm(m, s1, s2, n) ==> eax != 0 && cell == s1 + n - 1
  {
    if n < VEC_SIZE {
      eax, cell := LessVec(m, s1, s2, n, cell0);
    } else {
      eax, cell := AtLeastVec(m, s1, s2, n, cell0);
      DecidesLocates(m, s1, s2, n, eax, cell);
    }
  }

  /** A byte read through a (signed) char pointer. */
  function Signed(b: byte): int {
    if b < 128 then b else b - 256
  }

  /** The byte loop used by the BASE_VERSION and BYTE_COMPARE builds. */
  method MemcmpBytes(m: Mem, s1: int, s2: int, n: nat, cell0: int) returns (ret: int, cell: int)
    ensures Locates(m, s1, s2, n, ret, cell)
    ensures ret == 0 ==> cell == cell0
  {
    var c1, c2 := s1, s2;
    cell := cell0;
    for i := 0 to n
      invariant c1 == s1 + i && c2 == s2 + i && cell == cell0
      invariant Same(m, s1, s2, i)
    {
      if Signed(m(c1)) - Signed(m(c2)) != 0 {
        FirstDiffersIsPrefix(m, s1, s2, n, i);
        return Signed(m(c1)) - Signed(m(c2)), c1;
      }
      assert EqualAt(m, c1, s2 - s1);
      c1, c2 := c1 + 1, c2 + 1;
    }
    FirstDiffersIsPrefix(m, s1, s2, n, n);
    ret := 0;
  }
}
