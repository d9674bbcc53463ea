/**
 * The pieces of C arithmetic and <ctype.h> the console depends on, written
 * out because Dafny's integers are unbounded and its `%` is Euclidean.
 * The target is a 32-bit ARM core: `unsigned long`, `size_t` and
 * `uintptr_t` are 32 bits wide and plain `char` is unsigned.
 */
module CSemantics {

  /** 2^32, the modulus of every unsigned 32-bit operation on the target. */
  const WORD: nat := 0x1_0000_0000

  /** ULONG_MAX on the target. */
  const ULONG_MAX: nat := WORD - 1

  /**
   * C99 `a % b` for `int` operands: the quotient is truncated toward zero,
   * so the remainder takes the sign of the dividend.
   */
  function CRem(a: int, b: int): (r: int)
    requires b > 0
    ensures a >= 0 ==> 0 <= r < b
    ensures a < 0 ==> -b < r <= 0
  {
    if a >= 0 then a % b else -((-a) % b)
  }

  /** Unsigned 32-bit wrap-around of an exact result. */
  function Wrap32(x: int): (r: nat)
    ensures r < WORD
    ensures (x - r) % WORD == 0
  {
    x % WORD
  }

  /** Unsigned negation of a nonzero word is its complement to 2^32. */
  lemma Wrap32Negate(n: nat)
    requires 0 < n < WORD
    ensures Wrap32(-(n as int)) == WORD - n
  {
    assert -(n as int) == -1 * WORD + (WORD - n);
  }

  /** Wrapping an intermediate sum does not change the wrapped total. */
  lemma Wrap32Add(a: int, b: int)
    ensures Wrap32(Wrap32(a) + b) == Wrap32(a + b)
  {
    var w := Wrap32(a);
    var q, q1 := a / WORD, (w + b) / WORD;
    assert a == WORD * q + w;
    assert w + b == WORD * q1 + Wrap32(w + b);
    assert a + b == WORD * (q + q1) + Wrap32(w + b);
  }

  /**
   * `isspace` in the "C" locale: the space and the control characters from
   * horizontal tab to carriage return (ISO C99 section 7.4.1.10).
   */
  predicate IsSpace(c: char)
    ensures IsSpace(c) <==> c == ' ' || '\t' <= c <= '\r'
  {
    c == ' ' || c == '\t' || c == '\n' || c == '\r' || c == 11 as char || c == 12 as char
  }

  function Min(a: int, b: int): int
  {
    if a <= b then a else b
  }
}
