/** The script engine's values as the debugger's native functions see them, and
    the engine's integer coercions. Only integral numbers are modelled: a JS
    number here is an `int`. */
module Duktape {
  import opened Common

  const INT_MIN: int := -0x8000_0000
  const INT_MAX: int := 0x7FFF_FFFF
  const UINT_MAX: int := 0xFFFF_FFFF

  /** A value on the engine's stack, by the type tests the callers make. */
  datatype JsValue = JsUndefined | JsNumber(n: int) | JsString(text: string) | JsObject

  /** The distance between two integers. */
  function Dist(a: int, b: int): nat
  {
    if a <= b then b - a else a - b
  }

  /** `duk_get_int` / `duk_to_int` on a number: clamped to the C `int` range,
      that is, the `int` nearest to the number. */
  function ToInt(n: int): (r: int)
    ensures INT_MIN <= r <= INT_MAX
    ensures forall m :: INT_MIN <= m <= INT_MAX ==> Dist(r, n) <= Dist(m, n)
    ensures INT_MIN <= n <= INT_MAX ==> r == n
    ensures n < INT_MIN ==> r == INT_MIN
    ensures n > INT_MAX ==> r == INT_MAX
  {
    if n < INT_MIN then INT_MIN else if n > INT_MAX then INT_MAX else n
  }

  /** `duk_get_uint` / `duk_to_uint` on a number: clamped to the C `unsigned`
      range, so a negative number becomes 0 rather than wrapping. */
  function ToUint(n: int): (r: u32)
    ensures forall m :: 0 <= m <= UINT_MAX ==> Dist(r, n) <= Dist(m, n)
    ensures 0 <= n <= UINT_MAX ==> r == n
    ensures n < 0 ==> r == 0
    ensures n > UINT_MAX ==> r == UINT_MAX
  {
    if n < 0 then 0 else if n > UINT_MAX then UINT_MAX else n
  }

  /** The nearest `unsigned` is unique: any value in 0..UINT_MAX at least as
      close to the number as every other such value is the coercion's result. */
  lemma ToUintIsOnlyNearest(n: int, m: int)
    requires 0 <= m <= UINT_MAX
    requires forall k :: 0 <= k <= UINT_MAX ==> Dist(m, n) <= Dist(k, n)
    ensures m == ToUint(n)
  {
    assert Dist(m, n) <= Dist(ToUint(n), n);
  }

  /** The nearest `int` is unique, in the same sense. */
  lemma ToIntIsOnlyNearest(n: int, m: int)
    requires INT_MIN <= m <= INT_MAX
    requires forall k :: INT_MIN <= k <= INT_MAX ==> Dist(m, n) <= Dist(k, n)
    ensures m == ToInt(n)
  {
    assert Dist(m, n) <= Dist(ToInt(n), n);
  }
}
