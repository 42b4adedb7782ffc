/** The two integer helpers of `jalali.ts`: quotient by `~~(a / b)` and its remainder. */
module JsMath {

  const INT32_HALF := 0x8000_0000
  const INT32_SPAN := 0x1_0000_0000

  /** ToInt32 of an integer (section 7.1.6 of ECMA-262). */
  function ToInt32(x: int): (r: int)
    ensures -INT32_HALF <= r < INT32_HALF
    ensures (x - r) % INT32_SPAN == 0
  {
    if -INT32_HALF <= x < INT32_HALF then x
    else (x + INT32_HALF) % INT32_SPAN - INT32_HALF
  }

  /** The quotient a / b with its fraction dropped. */
  function Trunc(a: int, b: int): (q: int)
    requires b > 0
  {
    if a >= 0 then a / b else -((-a) / b)
  }

  function Div(a: int, b: int): int
    requires b > 0
  {
    ToInt32(Trunc(a, b))
  }

  /** The remainder has the sign of the dividend: Mod(-1, 4) is -1. */
  function Mod(a: int, b: int): int
    requires b > 0
  {
    a - Div(a, b) * b
  }

  lemma DivMod(a: int, b: int)
    requires 0 <= a && 0 < b && a / b < INT32_HALF
    ensures Div(a, b) == a / b && Mod(a, b) == a % b
  {
    assert a / b >= 0;
    assert a == (a / b) * b + a % b;
  }
}
