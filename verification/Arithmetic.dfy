/** Powers of two and the lowest set bit. */
module Arithmetic {
  function Pow2(n: nat): (p: nat)
    ensures p > 0
  {
    if n == 0 then 1 else 2 * Pow2(n - 1)
  }

  lemma {:induction false} Pow2Adds(a: nat, b: nat)
    ensures Pow2(a + b) == Pow2(a) * Pow2(b)
  {
    if a > 0 {
      Pow2Adds(a - 1, b);
    }
  }

  lemma Pow2Grows(a: nat, b: nat)
    requires a <= b
    ensures Pow2(a) <= Pow2(b)
  {
    Pow2Adds(a, b - a);
    assert Pow2(a) * Pow2(b - a) >= Pow2(a) * 1;
  }

  lemma Pow2Values()
    ensures Pow2(9) == 0x200 && Pow2(12) == 0x1000
    ensures Pow2(21) == 0x20_0000 && Pow2(30) == 0x4000_0000
    ensures Pow2(39) == 0x80_0000_0000 && Pow2(48) == 0x1_0000_0000_0000
  {
    assert Pow2(9) == 0x200;
    Pow2Adds(9, 3);
    Pow2Adds(12, 9);
    Pow2Adds(21, 9);
    Pow2Adds(30, 9);
    Pow2Adds(39, 9);
  }

  /** The bits that two numbers have in common. */
  function BitAnd(a: nat, b: nat): nat {
    if a == 0 || b == 0 then 0
    else 2 * BitAnd(a / 2, b / 2) + (if a % 2 == 1 && b % 2 == 1 then 1 else 0)
  }

  /** Masking with a power of two less one takes the remainder. */
  lemma {:induction false} BitAndMask(n: nat, k: nat)
    ensures BitAnd(n, Pow2(k) - 1) == n % Pow2(k)
    decreases k
  {
    if k > 0 && n > 0 {
      var h := Pow2(k - 1);
      BitAndMask(n / 2, k - 1);
      assert (Pow2(k) - 1) / 2 == h - 1 && (Pow2(k) - 1) % 2 == 1;
      assert BitAnd(n, Pow2(k) - 1) == 2 * BitAnd(n / 2, h - 1) + n % 2;
      DoubleMod(n, h);
    } else if k > 0 {
      DivModUnique(0, 0, Pow2(k), 0);
    }
  }

  lemma DoubleMod(n: nat, h: nat)
    requires h > 0
    ensures n % (2 * h) == 2 * (n / 2 % h) + n % 2
  {
    var q, r := n / 2 / h, n / 2 % h;
    assert n / 2 == q * h + r;
    assert q * (2 * h) == 2 * (q * h);
    DivModUnique(n, q, 2 * h, 2 * r + n % 2);
  }

  ghost predicate PowerOfTwo(n: nat) {
    exists k: nat :: n == Pow2(k)
  }

  /** The index of the lowest set bit of a nonzero word. */
  function LowBitSet64(x: nat): nat
    requires x > 0
  {
    if x % 2 == 1 then 0 else 1 + LowBitSet64(x / 2)
  }

  lemma {:induction false} LowBitSetDivides(x: nat, k: nat)
    requires x > 0
    ensures x % Pow2(k) == 0 <==> k <= LowBitSet64(x)
  {
    if k > 0 {
      var h := Pow2(k - 1);
      if x % 2 == 1 {
        OddNotMultiple(x, h);
      } else {
        LowBitSetDivides(x / 2, k - 1);
        Halves(x / 2, h);
      }
    }
  }

  lemma OddNotMultiple(x: nat, h: nat)
    requires x % 2 == 1 && h > 0
    ensures x % (2 * h) != 0
  {
    var q := x / (2 * h);
    assert x == q * (2 * h) + x % (2 * h);
    assert q * (2 * h) == 2 * (q * h);
  }

  lemma Halves(y: nat, h: nat)
    requires h > 0
    ensures (2 * y) % (2 * h) == 2 * (y % h)
  {
    var q := y / h;
    assert 2 * y == q * (2 * h) + 2 * (y % h);
    DivModUnique(2 * y, q, 2 * h, 2 * (y % h));
  }

  lemma DivModUnique(a: nat, q: int, s: nat, r: nat)
    requires r < s && a == q * s + r
    ensures a / s == q && a % s == r
  {
    var d := q - a / s;
    assert d * s == a % s - r;
    assert d >= 1 ==> d * s >= s;
    assert d <= -1 ==> d * s <= -1 * s;
  }

  /** n * k by repeated addition, which keeps proofs that only step through multiples linear. */
  function Times(n: nat, k: nat): nat {
    if n == 0 then 0 else Times(n - 1, k) + k
  }

  lemma {:induction false} TimesIs(n: nat, k: nat)
    ensures Times(n, k) == n * k
  {
    if n > 0 {
      TimesIs(n - 1, k);
    }
  }

  lemma {:induction false} TimesGrows(a: nat, b: nat, k: nat)
    requires a <= b
    ensures Times(a, k) <= Times(b, k)
    decreases b
  {
    if a < b {
      TimesGrows(a, b - 1, k);
    }
  }

  lemma {:induction false} TimesAdds(a: nat, b: nat, k: nat)
    ensures Times(a + b, k) == Times(a, k) + Times(b, k)
  {
    if b > 0 {
      TimesAdds(a, b - 1, k);
    }
  }

  /** Quotient and remainder by repeated subtraction, for the same reason. */
  function Quot(d: nat, k: nat): nat
    requires k > 0
  {
    if d < k then 0 else 1 + Quot(d - k, k)
  }

  function Rem(d: nat, k: nat): (r: nat)
    requires k > 0
    ensures r < k
  {
    if d < k then d else Rem(d - k, k)
  }

  lemma {:induction false} TimesQuotRem(d: nat, k: nat)
    requires k > 0
    ensures d == Times(Quot(d, k), k) + Rem(d, k)
  {
    if d >= k {
      TimesQuotRem(d - k, k);
    }
  }

  lemma {:induction false} QuotRemOf(n: nat, k: nat, r: nat)
    requires r < k
    ensures Quot(Times(n, k) + r, k) == n && Rem(Times(n, k) + r, k) == r
  {
    if n > 0 {
      QuotRemOf(n - 1, k, r);
    }
  }

  lemma {:induction false} QuotRemShift(n: nat, k: nat, d: nat)
    requires k > 0
    ensures Quot(Times(n, k) + d, k) == n + Quot(d, k) && Rem(Times(n, k) + d, k) == Rem(d, k)
  {
    if n > 0 {
      QuotRemShift(n - 1, k, d);
    }
  }

  lemma QuotBelow(d: nat, n: nat, k: nat)
    requires k > 0
    ensures d < Times(n, k) <==> Quot(d, k) < n
  {
    TimesQuotRem(d, k);
    if Quot(d, k) < n {
      TimesGrows(Quot(d, k) + 1, n, k);
    } else {
      TimesGrows(n, Quot(d, k), k);
    }
  }

  /** They are division and remainder. */
  lemma QuotRemAre(d: nat, k: nat)
    requires k > 0
    ensures Quot(d, k) == d / k && Rem(d, k) == d % k
  {
    TimesQuotRem(d, k);
    TimesIs(Quot(d, k), k);
    DivModUnique(d, Quot(d, k), k, Rem(d, k));
  }
}
