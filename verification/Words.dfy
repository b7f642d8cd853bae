/** Machine words and the arithmetic of their wrap-around. */
module Words {
  const WORD16: nat := 0x1_0000
  const WORD32: nat := 0x1_0000_0000
  const WORD64: nat := 0x1_0000_0000_0000_0000

  type U32 = x: nat | x < WORD32
  type U64 = x: nat | x < WORD64

  lemma {:induction false} Distribute(m: int, p: int, q: int)
    ensures m * (p - q) == m * p - m * q
  {
  }

  lemma {:induction false} MultipleIsFar(m: nat, d: nat)
    requires d > 0
    ensures m * d >= m
  {
    if d > 1 {
      MultipleIsFar(m, d - 1);
      Distribute(m, d, 1);
    }
  }

  lemma {:induction false} DivisionOf(x: int, m: nat)
    requires m > 0
    ensures x == m * (x / m) + x % m && x % m < m
  {
  }

  lemma {:induction false} QuotientUnique(x: int, m: nat, q: int, r: nat)
    requires x == m * q + r && r < m
    ensures x / m == q && x % m == r
  {
    var p := x / m;
    DivisionOf(x, m);
    Distribute(m, p, q);
    Distribute(m, q, p);
    if p > q {
      MultipleIsFar(m, p - q);
    } else if p < q {
      MultipleIsFar(m, q - p);
    }
  }

  /** Adding whole words does not change what a word keeps. */
  lemma {:induction false} AddMultiple(a: int, k: int, m: nat)
    requires m > 0
    ensures (k * m + a) % m == a % m
  {
    var q, r := a / m, a % m;
    DivisionOf(a, m);
    Distribute(m, k, -q);
    QuotientUnique(k * m + a, m, k + q, r);
  }

  /** Cutting the last byte off a number. */
  lemma {:induction false} Shift(q: nat, b: nat)
    requires b < 256
    ensures (256 * q + b) / 256 == q && (256 * q + b) % 256 == b
  {
  }

  lemma {:induction false} ShiftTwice(n: nat)
    ensures n / 0x1_0000 == n / 0x100 / 0x100 && n / 0x100_0000 == n / 0x100 / 0x100 / 0x100
  {
  }
}
