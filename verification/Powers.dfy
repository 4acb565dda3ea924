/** Powers of two, and division by them kept apart from the solver's nonlinear arithmetic. */
module Powers {
  function Pow2(n: nat): (r: nat)
    ensures r > 0
  {
    if n == 0 then 1 else 2 * Pow2(n - 1)
  }

  lemma {:induction false} Pow2Add(a: nat, b: nat)
    ensures Pow2(a + b) == Pow2(a) * Pow2(b)
  {
    if a > 0 {
      Pow2Add(a - 1, b);
      assert Pow2(a + b) == 2 * (Pow2(a - 1) * Pow2(b));
      MulAssoc(2, Pow2(a - 1), Pow2(b));
    }
  }

  lemma MulAssoc(a: int, b: int, c: int)
    ensures a * (b * c) == (a * b) * c
  {
  }

  lemma MulDist(a: int, b: int, c: int)
    ensures (a + b) * c == a * c + b * c
  {
  }

  lemma MulMono(a: nat, b: nat, c: nat)
    requires a <= b
    ensures a * c <= b * c
  {
  }

  lemma {:induction false} Pow2Mono(a: nat, b: nat)
    requires a <= b
    ensures Pow2(a) <= Pow2(b)
    decreases b - a
  {
    if a < b { Pow2Mono(a, b - 1); }
  }

  lemma WordSizes()
    ensures Pow2(8) == 0x100 && Pow2(16) == 0x1_0000 && Pow2(32) == 0x1_0000_0000 && Pow2(64) == 0x1_0000_0000_0000_0000
  {
    assert Pow2(8) == 256;
    hide Pow2;
    Pow2Add(8, 8);
    Pow2Add(16, 16);
    Pow2Add(32, 32);
  }

  /** `x >> k` for `p` equal to two to the power `k`. */
  function Quot(x: nat, p: nat): (q: nat)
    requires p > 0
  {
    x / p
  }

  /** The low `k` bits of `x` for `p` equal to two to the power `k`. */
  function Rem(x: nat, p: nat): (r: nat)
    requires p > 0
    ensures r < p
  {
    x % p
  }

  lemma QuotRem(x: nat, p: nat)
    requires p > 0
    ensures x == Rem(x, p) + Quot(x, p) * p
  {
  }

  /** Quotient and remainder of a number given in two parts. */
  lemma DivParts(lo: nat, hi: nat, p: nat)
    requires lo < p
    ensures Quot(lo + hi * p, p) == hi && Rem(lo + hi * p, p) == lo
  {
    var x := lo + hi * p;
    var q, r := Quot(x, p), Rem(x, p);
    hide Quot, Rem;
    QuotRem(x, p);
    if q < hi {
      MulMono(q + 1, hi, p);
    } else if q > hi {
      MulMono(hi + 1, q, p);
    }
    assert (q - hi) * p == lo - r;
  }

  /** Dividing by a product is dividing twice. */
  lemma DivModProduct(lo: nat, hi: nat, p: nat, q: nat)
    requires lo < p && q > 0
    ensures q * p > 0
    ensures Quot(lo + hi * p, q * p) == Quot(hi, q)
    ensures Rem(lo + hi * p, q * p) == lo + Rem(hi, q) * p
  {
    var a, b := Quot(hi, q), Rem(hi, q);
    hide Quot, Rem;
    QuotRem(hi, q);
    assert hi == a * q + b;
    MulMono(b + 1, q, p);
    assert (b + 1) * p == b * p + p;
    var low := lo + b * p;
    assert low < q * p;
    assert hi * p == (a * q) * p + b * p;
    MulAssoc(a, q, p);
    assert lo + hi * p == low + a * (q * p);
    DivParts(low, a, q * p);
  }
}
