/** Machine integer ranges and the Option wrapper shared by every module. */
module Common {

  /** Unsigned machine integers. 32-bit words are bounded integers rather than
      bit-vectors; C's unsigned wrap-around is written out with `Wrap32`. */
  type u8 = x: int | 0 <= x < 0x100
  type u16 = x: int | 0 <= x < 0x1_0000
  type u32 = x: int | 0 <= x < 0x1_0000_0000

  const TWO_32: int := 0x1_0000_0000

  /** Reduction modulo 2^32: the result of a C `uint32_t` computation, and also
      ECMAScript's ToUint32 on an integral number. */
  function Wrap32(x: int): (r: u32)
    ensures 0 <= x < TWO_32 ==> r == x
  {
    x % TWO_32
  }

  /** A value that may be absent (a NULL pointer in the source). */
  datatype Option<T> = None | Some(value: T)

  /** Quotient and remainder by a byte-lane width are unique. */
  lemma DivModUnique(x: int, d: int, q: int, m: int)
    requires d == 0x100 || d == 0x1_0000 || d == 0x100_0000
    requires 0 <= m < d && x == q * d + m
    ensures x / d == q && x % d == m
  {
    if d == 0x100 {
      assert x == q * 0x100 + m;
    } else if d == 0x1_0000 {
      assert x == q * 0x1_0000 + m;
    } else {
      assert x == q * 0x100_0000 + m;
    }
  }
}
