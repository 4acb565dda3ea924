/** Finite State Entropy: the encoder and decoder tables, and why one step undoes the other. */
module FseTables {
  import opened BitStream
  import opened Powers

  /** The sum of the first `i` frequencies: where the states of symbol `i` begin. */
  function Offset(freq: seq<nat>, i: nat): nat
    requires i <= |freq|
  {
    if i == 0 then 0 else Offset(freq, i - 1) + freq[i - 1]
  }

  lemma {:induction false} OffsetMono(freq: seq<nat>, i: nat, j: nat)
    requires i <= j <= |freq|
    ensures Offset(freq, i) <= Offset(freq, j)
    decreases j - i
  {
    if i < j { OffsetMono(freq, i, j - 1); }
  }

  /** A frequency table whose entries fill a power-of-two number of states. */
  ghost predicate Normalized(freq: seq<nat>, bits: nat)
  {
    Offset(freq, |freq|) == Pow2(bits)
  }

  /** The least shift that brings `f` up to the number of states. */
  function Shift(f: nat, bits: nat): nat
    requires 0 < f
    decreases Pow2(bits) - f
  {
    if f >= Pow2(bits) then 0 else 1 + Shift(2 * f, bits)
  }

  /** `__builtin_clz`: the leading zeros of a 32-bit word. */
  function Clz(x: nat): nat
    requires 0 < x
    decreases 0x8000_0000 - x
  {
    if x >= 0x8000_0000 then 0 else 1 + Clz(2 * x)
  }

  lemma {:induction false} ClzAt(x: nat, bits: nat)
    requires bits < 32 && Pow2(bits) <= x < 2 * Pow2(bits)
    ensures Clz(x) == 31 - bits
    decreases 32 - bits
  {
    TopBit();
    if bits < 31 {
      Pow2Mono(bits + 1, 31);
      ClzAt(2 * x, bits + 1);
    }
  }

  lemma TopBit()
    ensures Pow2(31) == 0x8000_0000
  {
    WordSizes();
    assert Pow2(32) == 2 * Pow2(31);
  }

  /** The shift is `clz(f) - clz(nstates)`. */
  lemma {:induction false} ShiftIsClz(f: nat, bits: nat)
    requires 0 < f < 2 * Pow2(bits) && bits < 32
    ensures Shift(f, bits) == Clz(f) - Clz(Pow2(bits))
    decreases Pow2(bits) - f
  {
    if f >= Pow2(bits) {
      ClzAt(f, bits);
      ClzAt(Pow2(bits), bits);
    } else {
      TopBit();
      Pow2Mono(bits, 31);
      ShiftIsClz(2 * f, bits);
    }
  }

  /** The shift is what the table construction needs: `nstates <= f << k < 2 * nstates`. */
  lemma {:induction false} ShiftCorrect(f: nat, bits: nat)
    requires 0 < f <= Pow2(bits)
    ensures var k := Shift(f, bits); k <= bits && Pow2(bits) <= f * Pow2(k) < 2 * Pow2(bits)
    decreases Pow2(bits) - f
  {
    if f < Pow2(bits) {
      var k := Shift(2 * f, bits);
      if 2 * f > Pow2(bits) {
        assert k == 0 && Pow2(1) == 2;
      } else {
        ShiftCorrect(2 * f, bits);
        assert Pow2(k + 1) == 2 * Pow2(k);
        MulAssoc(f, 2, Pow2(k));
      }
      ShiftBound(f, k + 1, bits);
    }
  }

  lemma ShiftBound(f: nat, k: nat, bits: nat)
    requires f >= 1 && f * Pow2(k) < 2 * Pow2(bits)
    ensures k <= bits
  {
    if k > bits {
      Pow2Mono(bits + 1, k);
      MulMono(1, f, Pow2(k));
      assert false;
    }
  }

  /** `fse_encoder_entry`. */
  datatype EncoderEntry = EncoderEntry(s0: int, k: int, delta0: int, delta1: int)

  /** `fse_decoder_entry`. */
  datatype DecoderEntry = DecoderEntry(k: int, symbol: nat, delta: int)

  /** The entry of a symbol with `f` states starting at `offset`; `delta1` is not used when `k` is 0. */
  function EncoderEntryOf(f: nat, offset: nat, bits: nat): EncoderEntry
    requires 0 < f <= Pow2(bits)
  {
    ShiftCorrect(f, bits);
    var k := Shift(f, bits);
    EncoderEntry(f * Pow2(k) - Pow2(bits), k, offset - f + Pow2(bits - k),
                 if k == 0 then 0 else offset - f + Pow2(bits - k + 1))
  }

  /** The entry of the `j`th state of a symbol with `f` states. */
  function DecoderEntryOf(f: nat, j: nat, symbol: nat, bits: nat): DecoderEntry
    requires j < f <= Pow2(bits)
  {
    ShiftCorrect(f, bits);
    var k := Shift(f, bits);
    var j0 := Pow2(bits - k + 1) - f;
    if j < j0 then DecoderEntry(k, symbol, (f + j) * Pow2(k) - Pow2(bits))
    else if k == 0 then DecoderEntry(0, symbol, 0)
    else DecoderEntry(k - 1, symbol, (j - j0) * Pow2(k - 1))
  }

  /** `fse_encode` without its stream: the bits pushed, how many, and the next state. */
  function EncodeStep(e: EncoderEntry, s: nat): (r: (nat, nat, int))
    requires 0 <= e.k && (e.k == 0 ==> e.s0 <= 0)
  {
    var n := if s >= e.s0 then e.k else e.k - 1;
    (Rem(s, Pow2(n)), n, (if s >= e.s0 then e.delta0 else e.delta1) + Quot(s, Pow2(n)))
  }

  /** The fields of an encoder entry. */
  lemma EncoderEntryFields(f: nat, offset: nat, bits: nat)
    requires 0 < f <= Pow2(bits)
    ensures var (e, k) := (EncoderEntryOf(f, offset, bits), Shift(f, bits));
      && k <= bits && e.k == k && e.s0 == f * Pow2(k) - Pow2(bits)
      && e.delta0 == offset - f + Pow2(bits - k)
      && (k == 0 ==> e.s0 <= 0)
      && (k > 0 ==> e.delta1 == offset - f + Pow2(bits - k + 1))
  {
    ShiftCorrect(f, bits);
    if Shift(f, bits) == 0 {
      assert f * Pow2(0) == f;
    }
  }

  /** Quotients by a power of two, for numbers shifted by a multiple of it. */
  lemma QuotShift(s: nat, a: nat, p: nat)
    requires p > 0
    ensures Quot(s + a * p, p) == Quot(s, p) + a
  {
    hide Quot, Rem;
    QuotRem(s, p);
    DivParts(Rem(s, p), Quot(s, p) + a, p);
    assert Rem(s, p) + (Quot(s, p) + a) * p == s + a * p;
  }

  lemma MulCancel(a: nat, b: nat, p: nat)
    requires a * p < b * p
    ensures a < b
  {
    if a >= b { MulMono(b, a, p); }
  }

  /** The high branch with `p` for `1 << k` and `a * p` states. */
  lemma HighBranch(f: nat, s: nat, a: nat, p: nat)
    requires p > 0 && s < a * p <= f * p <= s + a * p
    ensures var x := Quot(s, p) + a; f <= x < 2 * a && a <= f && x * p - a * p + Rem(s, p) == s
  {
    hide Quot, Rem;
    var q, r := Quot(s, p), Rem(s, p);
    QuotRem(s, p);
    var x := q + a;
    MulDist(q, a, p);
    MulDist(x, 1, p);
    MulCancel(f, x + 1, p);
    MulDist(a, a, p);
    MulCancel(x, a + a, p);
    MulDist(f, 1, p);
    MulCancel(a, f + 1, p);
  }

  /** The low branch with `p` for `1 << (k - 1)` and `a * p` states. */
  lemma LowBranch(f: nat, s: nat, a: nat, p: nat)
    requires p > 0 && s + a * p < f * p + f * p < a * p + a * p
    ensures var x := Quot(s, p) + a; a <= x < 2 * f && f < a && (x - a) * p + Rem(s, p) == s
  {
    hide Quot, Rem;
    var q, r := Quot(s, p), Rem(s, p);
    QuotRem(s, p);
    var x := q + a;
    MulDist(q, a, p);
    MulCancel(f, a, p);
    MulDist(f, f, p);
    MulCancel(x, f + f, p);
  }

  /** `s'` is a state of the symbol, and its decoder entry leads back to `s` with the `n` bits `b`. */
  ghost predicate LeadsBack(f: nat, offset: nat, symbol: nat, bits: nat, s: nat, b: nat, n: nat, s': int)
    requires 0 < f <= Pow2(bits)
  {
    && n <= bits && b < Pow2(n)
    && offset <= s' < offset + f
    && DecoderEntryOf(f, s' - offset, symbol, bits) == DecoderEntry(n, symbol, s - b)
  }

  lemma HighBounds(f: nat, s: nat, bits: nat, k: nat)
    requires k <= bits && Pow2(bits) <= f * Pow2(k) && s < Pow2(bits) && f * Pow2(k) <= s + Pow2(bits)
    ensures Pow2(bits - k + 1) == 2 * Pow2(bits - k) && Pow2(bits - k) * Pow2(k) == Pow2(bits)
    ensures var x := Quot(s, Pow2(k)) + Pow2(bits - k);
      f <= x < 2 * Pow2(bits - k) && Pow2(bits - k) <= f && x * Pow2(k) - Pow2(bits) + Rem(s, Pow2(k)) == s
  {
    hide Quot, Rem, Pow2;
    Pow2Add(bits - k, k);
    Pow2Succ(bits - k);
    HighBranch(f, s, Pow2(bits - k), Pow2(k));
  }

  lemma LowBounds(f: nat, s: nat, bits: nat, k: nat)
    requires 1 <= k <= bits && s + Pow2(bits) < f * Pow2(k) < 2 * Pow2(bits)
    ensures var (a, p) := (Pow2(bits - k + 1), Pow2(k - 1)); var x := Quot(s, p) + a;
      a <= x < 2 * f && f < a && (x - a) * p + Rem(s, p) == s
  {
    hide Quot, Rem, Pow2;
    var a, p := Pow2(bits - k + 1), Pow2(k - 1);
    Pow2Add(bits - k + 1, k - 1);
    Pow2Succ(k - 1);
    MulAssoc(f, 2, p);
    LowBranch(f, s, a, p);
  }

  lemma StepHigh(f: nat, offset: nat, s: nat, symbol: nat, bits: nat)
    requires 0 < f <= Pow2(bits) && s < Pow2(bits)
    requires f * Pow2(Shift(f, bits)) <= s + Pow2(bits)
    ensures Shift(f, bits) <= bits
    ensures var k := Shift(f, bits);
      LeadsBack(f, offset, symbol, bits, s, Rem(s, Pow2(k)), k, offset - f + Pow2(bits - k) + Quot(s, Pow2(k)))
  {
    ShiftCorrect(f, bits);
    hide Quot, Rem, Pow2, Shift;
    HighBounds(f, s, bits, Shift(f, bits));
  }

  lemma StepLow(f: nat, offset: nat, s: nat, symbol: nat, bits: nat)
    requires 0 < f <= Pow2(bits) && s < Pow2(bits)
    requires s + Pow2(bits) < f * Pow2(Shift(f, bits))
    ensures 1 <= Shift(f, bits) <= bits
    ensures var k := Shift(f, bits);
      LeadsBack(f, offset, symbol, bits, s, Rem(s, Pow2(k - 1)), k - 1,
                offset - f + Pow2(bits - k + 1) + Quot(s, Pow2(k - 1)))
  {
    ShiftCorrect(f, bits);
    if Shift(f, bits) == 0 { assert false; }
    hide Quot, Rem, Pow2, Shift;
    LowBounds(f, s, bits, Shift(f, bits));
  }

  /**
    One encoding step and the table entry of the state it reaches: the symbol is recovered, the
    same number of bits is read back, and the previous state is rebuilt from them.
   */
  lemma StepInverts(f: nat, offset: nat, s: nat, symbol: nat, bits: nat)
    requires 0 < f <= Pow2(bits) && s < Pow2(bits)
    ensures var e := EncoderEntryOf(f, offset, bits);
      && 0 <= e.k && (e.k == 0 ==> e.s0 <= 0)
      && var r := EncodeStep(e, s); LeadsBack(f, offset, symbol, bits, s, r.0, r.1, r.2)
  {
    hide Quot, Rem, Pow2, Shift, LeadsBack, EncodeStep, EncoderEntryOf;
    EncoderEntryFields(f, offset, bits);
    var e := EncoderEntryOf(f, offset, bits);
    if s >= e.s0 {
      StepHigh(f, offset, s, symbol, bits);
      EncodeStepHigh(e, s);
    } else {
      StepLow(f, offset, s, symbol, bits);
      EncodeStepLow(e, s);
    }
  }

  lemma EncodeStepHigh(e: EncoderEntry, s: nat)
    requires 0 <= e.k && (e.k == 0 ==> e.s0 <= 0) && s >= e.s0
    ensures EncodeStep(e, s) == (Rem(s, Pow2(e.k)), e.k, e.delta0 + Quot(s, Pow2(e.k)))
  {
    hide Quot, Rem, Pow2;
  }

  lemma EncodeStepLow(e: EncoderEntry, s: nat)
    requires 0 < e.k && s < e.s0
    ensures EncodeStep(e, s) == (Rem(s, Pow2(e.k - 1)), e.k - 1, e.delta1 + Quot(s, Pow2(e.k - 1)))
  {
    hide Quot, Rem, Pow2;
  }

  lemma Pow2Succ(n: nat)
    ensures Pow2(n + 1) == 2 * Pow2(n)
  {
  }

  /** The two kinds of decoder entry. */
  lemma DecoderEntryFields(f: nat, j: nat, symbol: nat, bits: nat)
    requires j < f <= Pow2(bits)
    ensures Shift(f, bits) <= bits
    ensures var (e, k) := (DecoderEntryOf(f, j, symbol, bits), Shift(f, bits));
      if f + j < Pow2(bits - k + 1) then e == DecoderEntry(k, symbol, (f + j) * Pow2(k) - Pow2(bits))
      else k > 0 && e == DecoderEntry(k - 1, symbol, (f + j - Pow2(bits - k + 1)) * Pow2(k - 1))
  {
    ShiftCorrect(f, bits);
    Pow2Succ(bits);
    hide Pow2, Shift;
  }

  lemma HighEntryRange(f: nat, j: nat, bits: nat, k: nat, b: nat)
    requires k <= bits && Pow2(bits) <= f * Pow2(k) && f + j < Pow2(bits - k + 1) && b < Pow2(k)
    ensures 0 <= (f + j) * Pow2(k) - Pow2(bits) && (f + j) * Pow2(k) - Pow2(bits) + b < Pow2(bits)
  {
    hide Pow2;
    Pow2Add(bits - k, k);
    Pow2Succ(bits - k);
    HighRange(f, j, Pow2(bits - k), Pow2(k), b);
  }

  lemma LowEntryRange(f: nat, j: nat, bits: nat, k: nat, b: nat)
    requires 1 <= k <= bits && f * Pow2(k) < 2 * Pow2(bits) && j < f && Pow2(bits - k + 1) <= f + j && b < Pow2(k - 1)
    ensures var d := (f + j - Pow2(bits - k + 1)) * Pow2(k - 1); 0 <= d && d + b < Pow2(bits)
  {
    hide Pow2;
    Pow2Add(bits - k + 1, k - 1);
    Pow2Succ(k - 1);
    MulAssoc(f, 2, Pow2(k - 1));
    LowRange(f, j, Pow2(bits - k + 1), Pow2(k - 1), b);
  }

  /** Whatever bits are read, a decoder entry leads to a state of the table. */
  lemma EntryInRange(f: nat, j: nat, symbol: nat, bits: nat, b: nat)
    requires j < f <= Pow2(bits)
    requires var k := DecoderEntryOf(f, j, symbol, bits).k; k >= 0 ==> b < Pow2(k)
    ensures var e := DecoderEntryOf(f, j, symbol, bits);
      0 <= e.k <= bits && 0 <= e.delta && e.delta + b < Pow2(bits)
  {
    hide Pow2, Shift, DecoderEntryOf;
    DecoderEntryFields(f, j, symbol, bits);
    ShiftCorrect(f, bits);
    var k := Shift(f, bits);
    if f + j < Pow2(bits - k + 1) {
      HighEntryRange(f, j, bits, k, b);
    } else {
      LowEntryRange(f, j, bits, k, b);
    }
  }

  lemma HighRange(f: nat, j: nat, a: nat, p: nat, b: nat)
    requires a * p <= f * p && f + j < 2 * a && b < p
    ensures 0 <= (f + j) * p - a * p && (f + j) * p - a * p + b < a * p
  {
    MulDist(f, j, p);
    MulDist(f + j, 1, p);
    MulMono(f + j + 1, 2 * a, p);
    MulAssoc(2, a, p);
  }

  lemma LowRange(f: nat, j: nat, a: nat, p: nat, b: nat)
    requires f < a || f * p < a * p
    requires a <= f + j && j < f && b < p
    ensures 0 <= (j - (a - f)) * p && (j - (a - f)) * p + b < a * p
  {
    var x := j - (a - f);
    if f >= a { MulMono(a, f, p); }
    MulMono(x + 1, a, p);
    MulDist(x, 1, p);
  }
}
