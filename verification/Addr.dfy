/** Page arithmetic: the macros of addr.h for 4096-byte pages, and 64-bit arithmetic. */
module Addr {

  const PAGE_SIZE := 4096

  const TWO64 := 0x1_0000_0000_0000_0000

  /** unsigned long arithmetic */
  function U64(x: int): (r: nat)
    ensures r < TWO64
    ensures 0 <= x < TWO64 ==> r == x
  {
    x % TWO64
  }

  function PageNum(addr: nat): nat {
    addr / PAGE_SIZE
  }

  function PageOffset(addr: nat): nat {
    addr % PAGE_SIZE
  }

  function GetAddr(pageNum: nat, offset: nat): nat {
    pageNum * PAGE_SIZE + offset
  }
}
