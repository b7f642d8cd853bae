/** Bitwise operations on natural numbers, and what they mean arithmetically. */
module Bits {
  import opened Words

  function Pow2(n: nat): (p: nat)
    ensures p > 0
  {
    if n == 0 then 1 else 2 * Pow2(n - 1)
  }

  /** Bit `i` of `a`. */
  predicate Bit(a: nat, i: nat) {
    if i == 0 then a % 2 == 1 else Bit(a / 2, i - 1)
  }

  function And(a: nat, b: nat): nat {
    if a == 0 then 0 else 2 * And(a / 2, b / 2) + (a % 2) * (b % 2)
  }

  function Xor(a: nat, b: nat): nat
    decreases a + b
  {
    if a == 0 && b == 0 then 0 else 2 * Xor(a / 2, b / 2) + (a + b) % 2
  }

  lemma {:induction false} ZeroBit(i: nat)
    ensures !Bit(0, i)
  {
    if i > 0 {
      ZeroBit(i - 1);
    }
  }

  /** A number put together from its last bit and the others. */
  lemma {:induction false} Halves(q: nat, r: nat)
    requires r < 2
    ensures (2 * q + r) / 2 == q && (2 * q + r) % 2 == r
  {
  }

  lemma {:induction false} AndBit(a: nat, b: nat, i: nat)
    ensures Bit(And(a, b), i) <==> Bit(a, i) && Bit(b, i)
  {
    if a == 0 {
      ZeroBit(i);
    } else {
      LowBits(a % 2, b % 2);
      Halves(And(a / 2, b / 2), (a % 2) * (b % 2));
      if i > 0 {
        AndBit(a / 2, b / 2, i - 1);
      }
    }
  }

  lemma {:induction false} LowBits(p: nat, q: nat)
    requires p < 2 && q < 2
    ensures p * q == if p == 1 && q == 1 then 1 else 0
  {
  }

  lemma {:induction false} SumParity(a: nat, b: nat)
    ensures (a + b) % 2 == 1 <==> (a % 2 == 1) != (b % 2 == 1)
  {
  }

  lemma {:induction false} XorBit(a: nat, b: nat, i: nat)
    ensures Bit(Xor(a, b), i) <==> Bit(a, i) != Bit(b, i)
    decreases a + b
  {
    if a == 0 && b == 0 {
      ZeroBit(i);
    } else {
      Halves(Xor(a / 2, b / 2), (a + b) % 2);
      SumParity(a, b);
      hide Xor;
      if i > 0 {
        XorBit(a / 2, b / 2, i - 1);
      }
    }
  }

  lemma {:induction false} XorFits(a: nat, b: nat, n: nat)
    requires a < Pow2(n) && b < Pow2(n)
    ensures Xor(a, b) < Pow2(n)
    decreases n
  {
    if n > 0 {
      XorFits(a / 2, b / 2, n - 1);
    }
  }

  lemma {:induction false} AndOnes(x: nat, w: nat)
    requires x < Pow2(w)
    ensures And(x, Pow2(w) - 1) == x
    decreases w
  {
    if w > 0 {
      AndOnes(x / 2, w - 1);
      Halves(Pow2(w - 1) - 1, 1);
    }
  }

  /** The remainder of division by an even number, from that of its half. */
  lemma {:induction false} HalfRemainder(x: nat, m: nat)
    requires m > 0
    ensures x % (2 * m) == 2 * (x / 2 % m) + x % 2
  {
    var h, r := x / 2, x / 2 % m;
    var q := h / m;
    assert h == m * q + r;
    assert x == 2 * m * q + (2 * r + x % 2);
    QuotientUnique(x, 2 * m, q, 2 * r + x % 2);
  }

  /** Masking with the ones above bit `p` rounds down to a multiple of 2^p. */
  lemma {:induction false} AndMask(x: nat, p: nat, w: nat)
    requires p <= w && x < Pow2(w)
    ensures Pow2(p) <= Pow2(w) && And(x, Pow2(w) - Pow2(p)) == x - x % Pow2(p)
    decreases p
  {
    if p == 0 {
      AndOnes(x, w);
    } else {
      AndMask(x / 2, p - 1, w - 1);
      Halves(Pow2(w - 1) - Pow2(p - 1), 0);
      HalfRemainder(x, Pow2(p - 1));
    }
  }

  lemma {:induction false} WordIsPow2()
    ensures Pow2(64) == WORD64
  {
    assert Pow2(4) == 16;
    PowAdds(4, 4);
    assert Pow2(8) == 0x100;
    PowAdds(8, 8);
    assert Pow2(16) == 0x1_0000;
    PowAdds(16, 16);
    assert Pow2(32) == 0x1_0000_0000;
    PowAdds(32, 32);
  }

  lemma {:induction false} PowAdds(m: nat, n: nat)
    ensures Pow2(m + n) == Pow2(m) * Pow2(n)
    decreases n
  {
    if n > 0 {
      PowAdds(m, n - 1);
      Double(Pow2(m), Pow2(n - 1));
    }
  }

  lemma {:induction false} Double(a: nat, b: nat)
    ensures a * (2 * b) == 2 * (a * b)
  {
  }

  // ---- Numbers are their bits ----

  lemma {:induction false} NoHighBits(a: nat, n: nat, i: nat)
    requires a < Pow2(n) && n <= i
    ensures !Bit(a, i)
    decreases n
  {
    if n == 0 {
      ZeroBit(i);
    } else {
      NoHighBits(a / 2, n - 1, i - 1);
    }
  }

  lemma {:induction false} SameBits(a: nat, b: nat, n: nat)
    requires a < Pow2(n) && b < Pow2(n) && forall i :: 0 <= i < n ==> (Bit(a, i) <==> Bit(b, i))
    ensures a == b
    decreases n
  {
    if n > 0 {
      assert Bit(a, 0) <==> Bit(b, 0);
      forall i | 0 <= i < n - 1 ensures Bit(a / 2, i) <==> Bit(b / 2, i) {
        assert Bit(a, i + 1) <==> Bit(b, i + 1);
      }
      SameBits(a / 2, b / 2, n - 1);
    }
  }

  /** Bits of `q`, which is `a` shifted right by `k`. */
  lemma {:induction false} ShiftedBit(a: nat, k: nat, q: nat, i: nat)
    requires ShiftLeft(q, k) <= a < ShiftLeft(q, k) + Pow2(k)
    ensures Bit(q, i) <==> Bit(a, i + k)
    decreases k
  {
    if k > 0 {
      ShiftedBit(a / 2, k - 1, q, i);
    }
  }

  lemma {:induction false} XorZero(a: nat)
    ensures Xor(a, 0) == a
  {
    if a > 0 {
      XorZero(a / 2);
    }
  }

  /** One bit at a time, for computing. */
  lemma {:induction false} XorUnfold(a: nat, b: nat)
    ensures Xor(a, b) == 2 * Xor(a / 2, b / 2) + (a + b) % 2
  {
  }

  /** `q` shifted left by `n`. */
  function ShiftLeft(q: nat, n: nat): nat {
    if n == 0 then q else 2 * ShiftLeft(q, n - 1)
  }

  /** Bits above those of `c` stay. */
  lemma {:induction false} XorLow(n: nat, q: nat, r: nat, c: nat)
    requires r < Pow2(n) && c < Pow2(n)
    ensures Xor(ShiftLeft(q, n) + r, c) == ShiftLeft(q, n) + Xor(r, c)
    decreases n
  {
    if n == 0 {
      XorZero(q);
      XorZero(0);
    } else {
      XorLow(n - 1, q, r / 2, c / 2);
      hide Xor;
      XorStepUp(ShiftLeft(q, n - 1), r, c);
    }
  }

  lemma {:induction false} XorStepUp(h: nat, r: nat, c: nat)
    requires Xor(h + r / 2, c / 2) == h + Xor(r / 2, c / 2)
    ensures Xor(2 * h + r, c) == 2 * h + Xor(r, c)
  {
    hide Xor;
    XorUnfold(2 * h + r, c);
    XorUnfold(r, c);
    Halves(h + r / 2, r % 2);
    Halves(h, 0);
    assert 2 * h + r == 2 * (h + r / 2) + r % 2;
    EvenMore(h, r + c);
  }

  lemma {:induction false} EvenMore(h: nat, n: nat)
    ensures (2 * h + n) % 2 == n % 2
  {
  }
}
