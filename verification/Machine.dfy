/** What all components share: 32-bit words, bytes, and a little arithmetic. */
module Machine {

  const WORD: nat := 0x1_0000_0000

  type Byte = b: int | 0 <= b < 256

  datatype Option<+T> = None | Some(value: T)

  /** A value as a 32-bit unsigned long. */
  function Wrap(x: nat): (r: nat)
    ensures r < WORD
  {
    if x < WORD then x else x % WORD
  }

  /** The character at index `i` of a C string; the terminating NUL is implicit. */
  function At(s: string, i: nat): char {
    if i < |s| then s[i] else '\0'
  }

  /** A hexadecimal digit; `ten` is the letter for ten. */
  function HexDigit(d: nat, ten: char): char
    requires d < 16 && (ten == 'a' || ten == 'A')
  {
    if d < 10 then ('0' as int + d) as char else (ten as int + (d - 10)) as char
  }

  function Min(a: nat, b: nat): nat { if a <= b then a else b }

  function Pow2(n: nat): (p: nat)
    ensures p >= 1
  {
    if n == 0 then 1 else 2 * Pow2(n - 1)
  }

  lemma {:induction false} Pow2Sum(a: nat, b: nat)
    ensures Pow2(a + b) == Pow2(a) * Pow2(b)
    decreases a
  {
    if a > 0 { Pow2Sum(a - 1, b); }
  }

  /** Quotient and remainder are unique. */
  lemma ModUnique(n: int, p: nat, q: int, r: nat)
    requires r < p && n == p * q + r
    ensures n % p == r && n / p == q
  {
    var d := n / p - q;
    assert p * d == r - n % p;
    assert d >= 1 ==> p * d >= p;
    assert d <= -1 ==> p * d + p <= 0;
  }
}
