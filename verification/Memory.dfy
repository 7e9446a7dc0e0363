/** Byte-addressed memory and the notion every comparer is judged by: where two ranges of
    equal length first differ. */
module Memory {

  type byte = x: int | 0 <= x < 256

  /** Memory as the comparers see it: every address holds a byte. */
  type Mem = int -> byte

  /** The byte at x equals the byte d further on. */
  predicate EqualAt(m: Mem, x: int, d: int) {
    m(x) == m(x + d)
  }

  /** Every byte of [lo, hi) equals the byte d further on. */
  ghost predicate AllEqual(m: Mem, lo: int, hi: int, d: int) {
    forall x :: lo <= x < hi ==> EqualAt(m, x, d)
  }

  /** The ranges [a, a+n) and [b, b+n) hold the same bytes. */
  ghost predicate Same(m: Mem, a: int, b: int, n: int) {
    AllEqual(m, a, a + n, b - a)
  }

  /** k is the index of the first byte in which the two ranges differ. */
  ghost predicate FirstDiffersAt(m: Mem, a: int, b: int, n: int, k: int) {
    0 <= k < n && Same(m, a, b, k) && !EqualAt(m, a + k, b - a)
  }

  /** Length of the longest common prefix of the two ranges. */
  function CommonPrefix(m: Mem, a: int, b: int, n: nat): (k: nat)
    ensures k <= n && Same(m, a, b, k)
    ensures k < n ==> !EqualAt(m, a + k, b - a)
    decreases n
  {
    if n == 0 || m(a) != m(b) then
      assert n != 0 ==> !EqualAt(m, a, b - a);
      0
    else
      assert EqualAt(m, a, b - a);
      1 + CommonPrefix(m, a + 1, b + 1, n - 1)
  }

  /** The first difference, when there is one, is unique. */
  lemma FirstDiffersIsPrefix(m: Mem, a: int, b: int, n: nat, k: nat)
    requires k <= n && Same(m, a, b, k) && (k < n ==> !EqualAt(m, a + k, b - a))
    ensures CommonPrefix(m, a, b, n) == k
  {
    var c := CommonPrefix(m, a, b, n);
    assert c < k ==> EqualAt(m, a + c, b - a);
    assert k < c ==> EqualAt(m, a + k, b - a);
  }

  /** The byte at x after memcpy of n bytes from src to dest, for ranges that do not overlap. */
  function CopiedByte(m: Mem, dest: int, src: int, n: nat, x: int): byte {
    if dest <= x < dest + n then m(src + (x - dest)) else m(x)
  }

  /** memcpy */
  function Copied(m: Mem, dest: int, src: int, n: nat): Mem {
    x => CopiedByte(m, dest, src, n, x)
  }

  lemma CopiedAt(m: Mem, dest: int, src: int, n: nat, x: int)
    ensures Copied(m, dest, src, n)(x) == CopiedByte(m, dest, src, n, x)
  {
  }
}
