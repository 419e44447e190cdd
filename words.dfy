/** Machine integers of the C program: the signed `int` used for sizes and
    loop counters, and the 64-bit unsigned `size_t` that holds matrix elements. */
module Words {

  const INT_MAX: int := 0x7FFF_FFFF

  /** C `int`. Signed overflow is undefined behaviour in C, so the model keeps
      every `int` result inside this type: each arithmetic operation on an
      Int32 carries the proof obligation that the result is in range. */
  newtype Int32 = x: int | -0x8000_0000 <= x <= INT_MAX

  /** 2^64: the modulus of `size_t` arithmetic on a 64-bit platform. */
  const WORD_MODULUS: int := 0x1_0000_0000_0000_0000

  /** C `size_t` on a 64-bit platform. */
  newtype Word64 = x: int | 0 <= x < WORD_MODULUS

  /** The dimension is non-negative and `D*D`, computed in `int`, does not overflow. */
  predicate SquareFits(D: int)
  {
    0 <= D && D * D <= INT_MAX
  }

  /** Every `i*2` computed in `int` for `i < D*D` does not overflow. */
  predicate FillFits(D: int)
  {
    0 <= D && 2 * (D * D - 1) <= INT_MAX
  }

  lemma FillFitsSquare(D: int)
    requires FillFits(D)
    ensures SquareFits(D)
  {
  }

  /** Unsigned addition: the sum wraps around at most once. */
  function WrapAdd(a: Word64, b: Word64): (r: Word64)
    ensures a as int + b as int < WORD_MODULUS ==> r as int == a as int + b as int
    ensures a as int + b as int >= WORD_MODULUS ==> r as int == a as int + b as int - WORD_MODULUS
  {
    ((a as int + b as int) % WORD_MODULUS) as Word64
  }

  /** Unsigned multiplication: the result is the word congruent to the product. */
  function WrapMul(a: Word64, b: Word64): (r: Word64)
    ensures (a as int * b as int - r as int) % WORD_MODULUS == 0
  {
    ModDecompose(a as int * b as int, WORD_MODULUS);
    ((a as int * b as int) % WORD_MODULUS) as Word64
  }

  /** `x` minus its remainder is a multiple of `m`. */
  lemma ModDecompose(x: int, m: int)
    requires m > 0
    ensures (x - x % m) % m == 0
  {
    DivModUnique(x - x % m, m, x / m, 0);
  }

  lemma MulAtLeast(a: int, m: int)
    requires a >= 1 && m > 0
    ensures a * m >= m
  {
  }

  lemma MulMono(a: int, b: int, m: int)
    requires a <= b && m >= 0
    ensures a * m <= b * m
  {
  }

  /** Euclidean division is unique: a quotient and a remainder in range are the ones `/` and `%` give. */
  lemma DivModUnique(x: int, m: int, q: int, r: int)
    requires m > 0 && 0 <= r < m && x == q * m + r
    ensures x / m == q && x % m == r
  {
    var q', r' := x / m, x % m;
    assert x == q' * m + r';
    if q > q' {
      assert (q - q') * m == q * m - q' * m;
      MulAtLeast(q - q', m);
    } else if q < q' {
      assert (q' - q) * m == q' * m - q * m;
      MulAtLeast(q' - q, m);
    }
  }

  /** Reducing the summands first gives the same remainder as reducing the sum. */
  lemma {:induction false} ModAdd(x: int, y: int, m: int)
    requires m > 0
    ensures (x % m + y % m) % m == (x + y) % m
  {
    var s := x % m + y % m;
    assert x == (x / m) * m + x % m;
    assert y == (y / m) * m + y % m;
    assert s == (s / m) * m + s % m;
    assert x + y == (x / m + y / m + s / m) * m + s % m;
    DivModUnique(x + y, m, x / m + y / m + s / m, s % m);
  }

  /** One step of the `Suma += a * b` accumulator: if the word holds the
      running total modulo 2^64, it still does after the step. */
  lemma AccumulateStep(s: Word64, total: int, a: Word64, b: Word64)
    requires s as int == total % WORD_MODULUS
    ensures WrapAdd(s, WrapMul(a, b)) as int == (total + a as int * b as int) % WORD_MODULUS
  {
    var p := a as int * b as int;
    ModAdd(total, p, WORD_MODULUS);
    assert WrapMul(a, b) as int == p % WORD_MODULUS;
    assert s as int % WORD_MODULUS == s as int;
  }
}
