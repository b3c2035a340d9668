/** The pieces of JavaScript's semantics the rest of the model relies on:
    optional values, strings as UTF-16 code units, the ASCII character
    classes that the regular expressions /[A-Z]/, /[a-z]/, /[0-9]/ and
    /[a-z]/i match, and the remainder operator `%`. */
module Js {

  /** A value that may be missing (`undefined` or `null` in JavaScript). */
  datatype Option<T> = None | Some(value: T)

  /** One UTF-16 code unit: `split('')`, `length` and `charCodeAt` all work on these. */
  type CodeUnit = c: int | 0 <= c < 0x1_0000

  /** A JavaScript string. */
  type Text = seq<CodeUnit>

  predicate IsUpper(c: int) { 65 <= c <= 90 }

  predicate IsLower(c: int) { 97 <= c <= 122 }

  predicate IsDigit(c: int) { 48 <= c <= 57 }

  /** What /[a-z]/i matches: an ASCII letter of either case, nothing else. */
  predicate IsLetter(c: int) { IsUpper(c) || IsLower(c) }

  /** `toLowerCase` restricted to the ASCII letters. */
  function ToLower(c: CodeUnit): (r: CodeUnit)
    ensures IsLetter(c) ==> IsLower(r) && r - 97 == c - (if IsUpper(c) then 65 else 97)
    ensures !IsUpper(c) ==> r == c
  {
    if IsUpper(c) then c + 32 else c
  }

  /** JavaScript's `a % n` for a positive divisor: the quotient is truncated
      toward zero, so the remainder takes the sign of the dividend (Dafny's
      own `%` never returns a negative value). */
  function Rem(a: int, n: int): (r: int)
    requires n > 0
    ensures -n < r < n
    ensures a >= 0 ==> r == a % n
    ensures a <= 0 ==> r <= 0
  {
    if a >= 0 then a % n else -((-a) % n)
  }

  /** The remainder of a negated dividend is the negated remainder: with the
      value for non-negative dividends above, this fixes `Rem` everywhere,
      for instance `Rem(-1, 26) == -1`. */
  lemma RemOdd(a: int, n: int)
    requires n > 0
    ensures Rem(-a, n) == -Rem(a, n)
  {
  }
}
