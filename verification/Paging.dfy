/** The page parameters that init derives from the page size, and the macros of addr.h for any
    page size. */
module Paging {
  import opened Addr

  // ---- Shifts and masks, one bit at a time ----------------------------------------------------

  function ShiftRight(x: nat, k: nat): nat {
    if k == 0 then x else ShiftRight(x / 2, k - 1)
  }

  function ShiftLeft(x: nat, k: nat): nat {
    if k == 0 then x else 2 * ShiftLeft(x, k - 1)
  }

  /** x & ((1 << k) - 1) */
  function LowBits(x: nat, k: nat): nat {
    if k == 0 then 0 else x % 2 + 2 * LowBits(x / 2, k - 1)
  }

  lemma {:induction false} Parts(x: nat, k: nat)
    ensures ShiftLeft(ShiftRight(x, k), k) + LowBits(x, k) == x
    ensures LowBits(x, k) < ShiftLeft(1, k)
  {
    if k > 0 { Parts(x / 2, k - 1); }
  }

  lemma {:induction false} PartsUnique(p: nat, o: nat, k: nat)
    requires o < ShiftLeft(1, k)
    ensures ShiftRight(ShiftLeft(p, k) + o, k) == p && LowBits(ShiftLeft(p, k) + o, k) == o
  {
    if k > 0 {
      PartsUnique(p, o / 2, k - 1);
      assert (ShiftLeft(p, k) + o) / 2 == ShiftLeft(p, k - 1) + o / 2;
    }
  }

  lemma {:induction false} OneMoreBit(x: nat, k: nat)
    ensures ShiftRight(x, k + 1) == ShiftRight(x, k) / 2
  {
    if k > 0 { OneMoreBit(x / 2, k - 1); }
  }

  lemma {:induction false} Monotone(x: nat, y: nat, j: nat, k: nat)
    requires x <= y && j <= k
    ensures ShiftLeft(x, j) <= ShiftLeft(y, k)
    decreases j + k
  {
    if j < k {
      Monotone(x, y, j, k - 1);
    } else if k > 0 {
      Monotone(x, y, k - 1, k - 1);
    }
  }

  // ---- The macros -----------------------------------------------------------------------------

  /** The conversion of addr2PageOffset to short. */
  function Short(x: nat): int {
    var r := x % 0x1_0000;
    if r < 0x8000 then r else r - 0x1_0000
  }

  /** addr2PageNum */
  function Num(shift: nat, addr: nat): nat {
    ShiftRight(addr, shift)
  }

  /** addr2PageOffset */
  function Offset(shift: nat, addr: nat): int {
    Short(LowBits(addr, shift))
  }

  /** getAddr, in 64 bits */
  function Get(shift: nat, pageNum: nat, offset: int): nat {
    U64(ShiftLeft(pageNum, shift) + offset)
  }

  lemma PageOf15Bits()
    ensures ShiftLeft(1, 12) == PAGE_SIZE && ShiftLeft(1, 15) == 0x8000
  {
    assert ShiftLeft(1, 5) == 32 && ShiftLeft(1, 10) == 1024;
  }

  /** A page number and an offset give the address back, for every address, exactly when the page is
      at most 32768 bytes: beyond that the offset does not fit in a short. */
  lemma RoundTripIff(shift: nat)
    ensures (forall addr: nat :: addr < TWO64 ==> Get(shift, Num(shift, addr), Offset(shift, addr)) == addr)
       <==> shift <= 15
  {
    hide Num, Offset, Get;
    if shift <= 15 {
      forall addr: nat | addr < TWO64
        ensures Get(shift, Num(shift, addr), Offset(shift, addr)) == addr
      {
        RoundTrip(shift, addr);
      }
    } else {
      LargePageFails(shift);
    }
  }

  lemma FitsShort(shift: nat)
    ensures shift <= 15 ==> ShiftLeft(1, shift) <= 0x8000
    ensures shift > 15 ==> ShiftLeft(1, shift) > 0x8000
  {
    hide *;
    PageOf15Bits();
    if shift <= 15 {
      Monotone(1, 1, shift, 15);
    } else {
      OneMoreDouble(15);
      Monotone(1, 1, 16, shift);
    }
  }

  lemma OneMoreDouble(k: nat)
    ensures ShiftLeft(1, k + 1) == 2 * ShiftLeft(1, k)
  {
  }

  lemma SmallIsShort(x: nat)
    requires x < 0x8000
    ensures Short(x) == x
  {
  }

  lemma RoundTrip(shift: nat, addr: nat)
    requires shift <= 15 && addr < TWO64
    ensures Get(shift, Num(shift, addr), Offset(shift, addr)) == addr
  {
    hide ShiftLeft, ShiftRight, LowBits, Short;
    FitsShort(shift);
    Parts(addr, shift);
    SmallIsShort(LowBits(addr, shift));
  }

  lemma LargePageFails(shift: nat)
    requires shift > 15
    ensures Get(shift, Num(shift, 0x8000), Offset(shift, 0x8000)) != 0x8000
  {
    hide ShiftLeft, ShiftRight, LowBits;
    FitsShort(shift);
    ShiftLeftZero(shift);
    PartsUnique(0, 0x8000, shift);
  }

  lemma {:induction false} ShiftLeftZero(shift: nat)
    ensures ShiftLeft(0, shift) == 0
  {
    if shift > 0 { ShiftLeftZero(shift - 1); }
  }

  /** The other way round: an address built from a page number and an offset has just these. */
  lemma PartsOfAddress(shift: nat, p: nat, o: nat)
    requires shift <= 15 && o < ShiftLeft(1, shift) && ShiftLeft(p, shift) + o < TWO64
    ensures Num(shift, Get(shift, p, o)) == p && Offset(shift, Get(shift, p, o)) == o
  {
    hide ShiftLeft, ShiftRight, LowBits, Short;
    FitsShort(shift);
    PartsUnique(p, o, shift);
    SmallIsShort(o);
  }

  lemma {:induction false} ShiftIsProduct(p: nat, k: nat)
    ensures ShiftLeft(p + 1, k) == ShiftLeft(p, k) + ShiftLeft(1, k)
  {
    if k > 0 { ShiftIsProduct(p, k - 1); }
  }

  lemma {:induction false} PagesAre4096(p: nat)
    ensures ShiftLeft(p, 12) == GetAddr(p, 0)
  {
    if p == 0 {
      ShiftLeftZero(12);
    } else {
      hide ShiftLeft;
      PagesAre4096(p - 1);
      ShiftIsProduct(p - 1, 12);
      PageOf15Bits();
    }
  }

  /** For 4096-byte pages these are the functions that the index works with. */
  lemma PagesOf4096(addr: nat, p: nat, o: nat)
    ensures Num(12, addr) == PageNum(addr) && Offset(12, addr) == PageOffset(addr)
    ensures GetAddr(p, o) < TWO64 ==> Get(12, p, o) == GetAddr(p, o)
  {
    hide ShiftLeft, ShiftRight, LowBits;
    PageOf15Bits();
    PagesAre4096(PageNum(addr));
    PartsUnique(PageNum(addr), PageOffset(addr), 12);
    PagesAre4096(p);
  }

  // ---- init -----------------------------------------------------------------------------------

  class Globals {
    var PAGESIZE: nat
    var PAGENUMSHIFT: nat
    var PAGEOFFMASK: int
    var PAGENUMMASK: int

    /** The part of init that follows getpagesize: the shift is the number of bits of the page size
        less one; the offset mask has the bits below, the number mask is its complement. */
    method Init(pageSize: nat)
      requires 1 <= pageSize
      modifies this
      ensures PAGESIZE == pageSize <= ShiftLeft(1, PAGENUMSHIFT)
      ensures PAGENUMSHIFT > 0 ==> ShiftLeft(1, PAGENUMSHIFT - 1) < pageSize
      ensures PAGEOFFMASK == ShiftLeft(1, PAGENUMSHIFT) - 1 && PAGENUMMASK == -1 - PAGEOFFMASK
    {
      PAGESIZE := pageSize;
      var tmp := PAGESIZE - 1;
      PAGENUMSHIFT := 0;
      while tmp != 0
        invariant PAGESIZE == pageSize && tmp == ShiftRight(pageSize - 1, PAGENUMSHIFT)
        invariant PAGENUMSHIFT > 0 ==> ShiftRight(pageSize - 1, PAGENUMSHIFT - 1) != 0
        decreases tmp
      {
        OneMoreBit(pageSize - 1, PAGENUMSHIFT);
        PAGENUMSHIFT := PAGENUMSHIFT + 1;
        tmp := tmp / 2;
      }
      BitLength(pageSize - 1, PAGENUMSHIFT);
      PAGEOFFMASK := ShiftLeft(1, PAGENUMSHIFT) - 1;
      PAGENUMMASK := -1 - PAGEOFFMASK;
    }
  }

  lemma BitLength(x: nat, k: nat)
    requires ShiftRight(x, k) == 0 && (k > 0 ==> ShiftRight(x, k - 1) != 0)
    ensures x < ShiftLeft(1, k) && (k > 0 ==> ShiftLeft(1, k - 1) <= x)
  {
    Parts(x, k);
    ShiftLeftZero(k);
    if k > 0 {
      Parts(x, k - 1);
      Monotone(1, ShiftRight(x, k - 1), k - 1, k - 1);
    }
  }

  /** For a power of two, the shift init derives is the exponent. */
  lemma ShiftOfPowerOfTwo(k: nat, shift: nat)
    requires ShiftLeft(1, k) <= ShiftLeft(1, shift) && (shift > 0 ==> ShiftLeft(1, shift - 1) < ShiftLeft(1, k))
    ensures shift == k
  {
    if shift < k {
      Monotone(1, 1, shift + 1, k);
      PowersPositive(shift);
    }
    if shift > k { Monotone(1, 1, k, shift - 1); }
  }

  lemma PowersPositive(k: nat)
    ensures ShiftLeft(1, k) >= 1
  {
    Monotone(1, 1, 0, k);
  }
}
