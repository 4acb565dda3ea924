/** `fse_normalize_freq`: scaling symbol counts to frequencies that fill a power-of-two table. */
module FseNormalize {
  import opened BitStream
  import opened Powers
  import opened FseTables

  /** Sum of a histogram. */
  function Sum(s: seq<nat>): nat
  {
    Offset(s, |s|)
  }

  /** Number of symbols that occur among the first `n`. */
  function Used(s: seq<nat>, n: nat): (r: nat)
    requires n <= |s|
    ensures r <= n
  {
    if n == 0 then 0 else Used(s, n - 1) + (if s[n - 1] > 0 then 1 else 0)
  }

  lemma {:induction false} OffsetUpdate(s: seq<nat>, i: nat, v: nat, n: nat)
    requires i < |s| && n <= |s|
    ensures Offset(s[i := v], n) == Offset(s, n) + (if i < n then v - s[i] else 0)
  {
    if n > 0 { OffsetUpdate(s, i, v, n - 1); }
  }

  lemma {:induction false} OffsetPrefix(s: seq<nat>, t: seq<nat>, n: nat)
    requires n <= |s| && n <= |t| && s[..n] == t[..n]
    ensures Offset(s, n) == Offset(t, n)
  {
    if n > 0 {
      assert s[..n - 1] == s[..n][..n - 1] == t[..n][..n - 1] == t[..n - 1];
      assert s[n - 1] == s[..n][n - 1] == t[..n][n - 1] == t[n - 1];
      OffsetPrefix(s, t, n - 1);
    }
  }

  lemma {:induction false} UsedSame(s: seq<nat>, t: seq<nat>, n: nat)
    requires |s| == |t| && n <= |s| && forall i :: 0 <= i < |s| ==> (s[i] > 0 <==> t[i] > 0)
    ensures Used(s, n) == Used(t, n)
  {
    if n > 0 { UsedSame(s, t, n - 1); }
  }

  /** When nothing exceeds one, a prefix sums to the number of used symbols. */
  lemma {:induction false} OnesSum(s: seq<nat>, n: nat)
    requires n <= |s| && forall i :: 0 <= i < n ==> s[i] <= 1
    ensures Offset(s, n) == Used(s, n)
  {
    if n > 0 { OnesSum(s, n - 1); }
  }

  /** What a pass with `shift` may take from a symbol. */
  function Share(f: nat, shift: nat): (n: nat)
    ensures n <= f && (f > 0 ==> n < f) && (shift == 0 && f > 0 ==> n == f - 1)
    ensures f > 0 ==> n * Pow2(shift) <= f - 1 < (n + 1) * Pow2(shift)
  {
    if f <= 1 then 0
    else
      ShiftedLess(f - 1, shift);
      Quot(f - 1, Pow2(shift))
  }

  /** Symbols before `j` have lost their share, those after it nothing, and `j` some of its share. */
  ghost predicate Shared(before: seq<nat>, after: seq<nat>, shift: nat, j: nat) {
    && |before| == |after|
    && (forall i :: 0 <= i < |before| && i < j ==> after[i] == before[i] - Share(before[i], shift))
    && (forall i :: j < i < |before| ==> after[i] == before[i])
    && (j < |before| ==> before[j] - Share(before[j], shift) <= after[j] <= before[j])
  }

  /** One pass of `fse_adjust_freqs`: takes `(freq - 1) >> shift` from each symbol until `overrun` is gone. */
  method AdjustPass(freq: array<nat>, overrun0: nat, shift: nat) returns (overrun: nat, ghost j: nat)
    requires overrun0 > 0
    modifies freq
    ensures overrun <= overrun0
    ensures Sum(freq[..]) == Sum(old(freq[..])) - (overrun0 - overrun)
    ensures Shared(old(freq[..]), freq[..], shift, j) && (overrun > 0 ==> j == freq.Length)
  {
    hide Share;
    overrun := overrun0;
    var sym := 0;
    while sym < freq.Length
      invariant 0 <= sym <= freq.Length && 0 < overrun <= overrun0
      invariant Sum(freq[..]) == Sum(old(freq[..])) - (overrun0 - overrun)
      invariant forall i :: 0 <= i < sym ==> freq[i] == old(freq[i]) - Share(old(freq[i]), shift)
      invariant forall i :: sym <= i < freq.Length ==> freq[i] == old(freq[i])
    {
      ShareOfOne(shift);
      if freq[sym] > 1 {
        var n := Share(freq[sym], shift);
        if n > overrun {
          n := overrun;
        }
        ghost var before := freq[..];
        OffsetUpdate(before, sym, freq[sym] - n, |before|);
        freq[sym] := freq[sym] - n;
        assert freq[..] == before[sym := freq[sym]];
        overrun := overrun - n;
        if overrun == 0 {
          return overrun, sym;
        }
      }
      sym := sym + 1;
    }
    j := freq.Length;
  }

  lemma ShareOfOne(shift: nat)
    ensures Share(0, shift) == 0 && Share(1, shift) == 0
  {
  }

  lemma ShiftedLess(x: nat, shift: nat)
    ensures Quot(x, Pow2(shift)) <= x && (shift == 0 ==> Quot(x, Pow2(shift)) == x)
    ensures Quot(x, Pow2(shift)) * Pow2(shift) <= x < (Quot(x, Pow2(shift)) + 1) * Pow2(shift)
  {
    var q, p := Quot(x, Pow2(shift)), Pow2(shift);
    QuotRem(x, p);
    MulMono(1, p, q);
    MulDist(q, 1, p);
  }

  /** The passes: with shift 3, 2, 1 and 0, each but the last through all symbols. */
  ghost predicate Passes(stages: seq<seq<nat>>, n: nat) {
    && 0 < |stages| <= 5 && (forall k :: 0 <= k < |stages| ==> |stages[k]| == n)
    && (forall k {:trigger stages[k]} :: 0 <= k < |stages| - 2 ==> Shared(stages[k], stages[k + 1], 3 - k, n))
    && (|stages| > 1 ==> SharedUpTo(stages[|stages| - 2], stages[|stages| - 1], 5 - |stages|))
  }

  ghost predicate SharedUpTo(before: seq<nat>, after: seq<nat>, shift: nat) {
    exists j: nat :: Shared(before, after, shift, j)
  }

  /** `fse_adjust_freqs`: the passes end at shift 0 at the latest. */
  method AdjustFreqs(freq: array<nat>, overrun0: nat) returns (ghost stages: seq<seq<nat>>)
    requires overrun0 + Used(freq[..], freq.Length) <= Sum(freq[..])
    modifies freq
    ensures Sum(freq[..]) == Sum(old(freq[..])) - overrun0
    ensures Passes(stages, freq.Length) && stages[0] == old(freq[..]) && stages[|stages| - 1] == freq[..]
    ensures forall i :: 0 <= i < freq.Length ==> freq[i] <= old(freq[i]) && (freq[i] > 0 <==> old(freq[i]) > 0)
  {
    hide Share;
    var overrun: nat, shift: int := overrun0, 3;
    stages := [freq[..]];
    while overrun != 0
      invariant -1 <= shift <= 3 && |stages| == 4 - shift && (overrun > 0 ==> shift >= 0) && overrun <= overrun0
      invariant Sum(freq[..]) == Sum(old(freq[..])) - (overrun0 - overrun)
      invariant forall i :: 0 <= i < freq.Length ==> freq[i] <= old(freq[i]) && (freq[i] > 0 <==> old(freq[i]) > 0)
      invariant Passes(stages, freq.Length) && stages[0] == old(freq[..]) && stages[|stages| - 1] == freq[..]
      invariant overrun > 0 && |stages| > 1 ==>
        Shared(stages[|stages| - 2], stages[|stages| - 1], 5 - |stages|, freq.Length)
      decreases overrun != 0, shift
    {
      ghost var before := freq[..];
      ghost var j;
      overrun, j := AdjustPass(freq, overrun, shift);
      SharedKeeps(before, freq[..], shift, j);
      if shift == 0 && overrun > 0 {
        OnesSum(freq[..], freq.Length);
        UsedSame(freq[..], old(freq[..]), freq.Length);
        assert false;
      }
      PassesMore(stages, freq[..], j, freq.Length);
      stages := stages + [freq[..]];
      shift := shift - 1;
    }
  }

  lemma SharedKeeps(before: seq<nat>, after: seq<nat>, shift: nat, j: nat)
    requires Shared(before, after, shift, j)
    ensures forall i :: 0 <= i < |before| ==> after[i] <= before[i] && (after[i] > 0 <==> before[i] > 0)
    ensures shift == 0 && j == |before| ==> forall i :: 0 <= i < |before| ==> after[i] <= 1
  {
    hide Pow2, Quot;
  }

  lemma PassesMore(stages: seq<seq<nat>>, after: seq<nat>, j: nat, n: nat)
    requires Passes(stages, n) && |stages| <= 4 && Shared(stages[|stages| - 1], after, 4 - |stages|, j) && |after| == n
    requires |stages| > 1 ==> Shared(stages[|stages| - 2], stages[|stages| - 1], 5 - |stages|, n)
    ensures Passes(stages + [after], n)
  {
    hide Shared;
    var all := stages + [after];
    forall k {:trigger all[k]} | 0 <= k < |all| - 2 ensures Shared(all[k], all[k + 1], 3 - k, n) {
      assert all[k] == stages[k] && all[k + 1] == stages[k + 1];
    }
    assert SharedUpTo(all[|all| - 2], all[|all| - 1], 5 - |all|);
  }

  const HIGH: nat := 0x8000_0000

  function Step(total: nat): nat
  {
    if total == 0 then 0 else Quot(HIGH, total)
  }

  /** The largest number whose product with `total` is at most two to the power 31. */
  ghost predicate IsStep(step: nat, total: nat) { step * total <= HIGH < (step + 1) * total }

  lemma StepIs(total: nat)
    requires total > 0
    ensures IsStep(Step(total), total)
  {
    var step := Quot(HIGH, total);
    QuotRem(HIGH, total);
    hide Quot, Rem;
    assert (step + 1) * total == step * total + total;
  }

  /** The 32-bit product of a count and the step does not overflow. */
  lemma StepProduct(count: nat, total: nat)
    requires count <= total
    ensures count * Step(total) <= HIGH
  {
    if total == 0 { return; }
    var step := Quot(HIGH, total);
    QuotRem(HIGH, total);
    hide Quot, Rem;
    MulMono(count, total, step);
    assert total * step <= HIGH;
  }

  /**
    `f` is `x` over two to the power `31 - bits`, rounded to the nearest number, halves up; but a symbol that
    was used gets at least one state.
   */
  ghost predicate Rounded(count: nat, x: nat, bits: nat, f: nat)
    requires bits <= 15
  {
    var p := Pow2(30 - bits);
    if x < p then f == (if count == 0 then 0 else 1) else (2 * f - 1) * p <= x < (2 * f + 1) * p
  }

  /** The rounded frequency of a symbol; at least 1 when it was used. */
  function Scaled(count: nat, step: nat, bits: nat): (f: nat)
    requires bits <= 15 && count * step <= HIGH
    ensures Rounded(count, count * step, bits, f)
    ensures f <= Pow2(bits) && (count > 0 ==> f > 0) && (count == 0 ==> f == 0)
  {
    ScaledBound(count * step, bits);
    ScaledRounds(count * step, bits);
    var f := (Quot(count * step, Pow2(30 - bits)) + 1) / 2;
    if f == 0 && count != 0 then 1 else f
  }

  lemma ScaledRounds(x: nat, bits: nat)
    requires bits <= 15
    ensures var p := Pow2(30 - bits); var f := (Quot(x, p) + 1) / 2;
      if x < p then f == 0 else f > 0 && (2 * f - 1) * p <= x < (2 * f + 1) * p
  {
    hide Quot, Rem, Pow2;
    var p := Pow2(30 - bits);
    var q := Quot(x, p);
    var f := (q + 1) / 2;
    QuotRem(x, p);
    if x < p {
      DivParts(x, 0, p);
    } else {
      assert 2 * f - 1 <= q < 2 * f + 1;
      MulMono(2 * f - 1, q, p);
      MulMono(q + 1, 2 * f + 1, p);
      assert (q + 1) * p == q * p + p;
    }
  }

  lemma Pow2High()
    ensures Pow2(31) == HIGH
  {
    assert Pow2(15) == 32768 by { Pow2Add(8, 7); assert Pow2(8) == 256 && Pow2(7) == 128; }
    assert Pow2(16) == 65536;
    Pow2Add(15, 16);
  }

  lemma ScaledBound(x: nat, bits: nat)
    requires bits <= 15 && x <= HIGH
    ensures Quot(x, Pow2(30 - bits)) <= 2 * Pow2(bits) && (x == 0 ==> Quot(x, Pow2(30 - bits)) == 0)
  {
    hide Quot, Rem;
    var p, q := Pow2(30 - bits), Quot(x, Pow2(30 - bits));
    QuotRem(x, p);
    Pow2Add(bits + 1, 30 - bits);
    Pow2High();
    Pow2Succ(bits);
    hide Pow2;
    if q > Pow2(bits + 1) {
      MulMono(Pow2(bits + 1) + 1, q, p);
      MulDist(Pow2(bits + 1), 1, p);
      assert false;
    }
    if x == 0 && q > 0 {
      MulMono(1, q, p);
      assert false;
    }
  }

  lemma {:induction false} CountBound(t: seq<nat>, i: nat, n: nat)
    requires i < n <= |t|
    ensures t[i] <= Offset(t, n)
  {
    if i < n - 1 { CountBound(t, i, n - 1); }
  }

  lemma {:induction false} ZeroSum(t: seq<nat>, n: nat)
    requires n <= |t| && Offset(t, n) == 0
    ensures forall i :: 0 <= i < n ==> t[i] == 0
  {
    if n > 0 { ZeroSum(t, n - 1); }
  }

  /** `sym` is the first of the largest. */
  ghost predicate Largest(f: seq<nat>, sym: nat) {
    sym < |f| && (forall k :: 0 <= k < |f| ==> f[k] <= f[sym]) && forall k :: 0 <= k < sym ==> f[k] < f[sym]
  }

  /** Every count is scaled with the same step and rounded. */
  ghost predicate AllRounded(t: seq<nat>, f: seq<nat>, step: nat, bits: nat)
    requires bits <= 15
  {
    |t| == |f| && forall i :: 0 <= i < |t| ==> Rounded(t[i], t[i] * step, bits, f[i])
  }

  /** The scaling loop: frequencies, their sum, and the symbol with the largest one. */
  method ScaleAll(bits: nat, t: seq<nat>, freq: array<nat>)
    returns (remaining: int, maxFreq: nat, maxSym: nat, ghost step: nat)
    requires bits <= 15 && 0 < |t| == freq.Length && Sum(t) < 0x1_0000_0000
    modifies freq
    ensures remaining == Pow2(bits) - Sum(freq[..])
    ensures maxSym < |t| && maxFreq == freq[maxSym] && Largest(freq[..], maxSym)
    ensures AllRounded(t, freq[..], step, bits) && (Sum(t) > 0 ==> IsStep(step, Sum(t)))
    ensures Sum(t) > 0 ==> forall i :: 0 <= i < |t| ==> (freq[i] > 0 <==> t[i] > 0)
    ensures Sum(t) > 0 ==> maxFreq > 0
    ensures Sum(t) == 0 ==> maxSym == 0 && forall i :: 0 <= i < |t| ==> freq[i] == 0
  {
    hide Pow2, Quot, Scaled, Step, Rounded, IsStep;
    var total: nat := 0;
    for i := 0 to |t|
      invariant total == Offset(t, i)
    {
      total := total + t[i];
    }
    var highprecStep := Step(total);
    step := highprecStep;
    if total > 0 { StepIs(total); }
    remaining, maxFreq, maxSym := Pow2(bits), 0, 0;
    if total == 0 { ZeroSum(t, |t|); }
    for i := 0 to |t|
      invariant remaining == Pow2(bits) - Offset(freq[..], i)
      invariant maxSym < |t| && (i > 0 ==> maxSym < i && maxFreq == freq[maxSym]) &&
        (i == 0 ==> maxSym == 0 && maxFreq == 0)
      invariant forall k :: 0 <= k < i ==> Rounded(t[k], t[k] * step, bits, freq[k])
      invariant forall k :: 0 <= k < maxSym ==> freq[k] < maxFreq
      invariant forall k :: 0 <= k < i ==> freq[k] <= maxFreq && (freq[k] > 0 <==> t[k] > 0)
      invariant total == 0 ==> maxSym == 0 && maxFreq == 0
    {
      CountBound(t, i, |t|);
      StepProduct(t[i], total);
      var f: nat := Scaled(t[i], highprecStep, bits);
      ghost var before := freq[..];
      freq[i] := f;
      assert freq[..] == before[i := f];
      OffsetUpdate(before, i, f, i);
      remaining := remaining - f;
      if f > maxFreq {
        maxFreq, maxSym := f, i;
      }
    }
    if total > 0 { SomeUsed(t, |t|, freq[..], maxFreq); }
  }

  lemma {:induction false} SomeUsed(t: seq<nat>, n: nat, f: seq<nat>, max: nat)
    requires n <= |t| == |f| && Offset(t, n) > 0
    requires forall k :: 0 <= k < |t| ==> f[k] <= max && (f[k] > 0 <==> t[k] > 0)
    ensures max > 0
  {
    if t[n - 1] == 0 { SomeUsed(t, n - 1, f, max); }
  }

  /** `freq` comes from the rounded frequencies `f` of the counts `t`, of which `m` is the first of the largest. */
  ghost predicate From(bits: nat, t: seq<nat>, freq: seq<nat>, f: seq<nat>, m: nat, step: nat)
    requires bits <= 15
  {
    && AllRounded(t, f, step, bits) && (Sum(t) > 0 ==> IsStep(step, Sum(t))) && Largest(f, m)
    && var excess := Sum(f) - Pow2(bits);
       if excess < f[m] / 4 then excess <= f[m] && freq == f[m := f[m] - excess]
       else exists stages :: Passes(stages, |t|) && stages[0] == f && stages[|stages| - 1] == freq
  }

  /** The frequencies that `Normalize` finds for the counts `t`. */
  ghost predicate NormalizedFrom(bits: nat, t: seq<nat>, freq: seq<nat>)
    requires bits <= 15
  {
    exists f, m, step :: From(bits, t, freq, f, m, step)
  }

  /**
    `fse_normalize_freq`. `f` are the rounded frequencies and `m` the first of the largest: when they do not
    exceed the number of states by a quarter of the largest, only `m` is changed; otherwise the passes of
    `AdjustFreqs` take the excess away.
   */
  method Normalize(bits: nat, t: seq<nat>, freq: array<nat>) returns (ghost f: seq<nat>, ghost m: nat, ghost step: nat)
    requires bits <= 15 && 0 < |t| == freq.Length <= Pow2(bits) && Sum(t) < 0x1_0000_0000
    modifies freq
    ensures Normalized(freq[..], bits)
    ensures forall i :: 0 <= i < |t| ==> freq[i] <= Pow2(bits)
    ensures Sum(t) > 0 ==> forall i :: 0 <= i < |t| ==> (freq[i] > 0 <==> t[i] > 0)
    ensures Sum(t) == 0 ==> freq[0] == Pow2(bits)
    ensures AllRounded(t, f, step, bits) && (Sum(t) > 0 ==> IsStep(step, Sum(t))) && Largest(f, m)
    ensures var excess := Sum(f) - Pow2(bits);
      if excess < f[m] / 4 then excess <= f[m] && freq[..] == f[m := f[m] - excess]
      else exists stages :: Passes(stages, |t|) && stages[0] == f && stages[|stages| - 1] == freq[..]
    ensures NormalizedFrom(bits, t, freq[..])
  {
    hide Pow2, Rounded, IsStep, Passes;
    var remaining, maxFreq, maxSym;
    remaining, maxFreq, maxSym, step := ScaleAll(bits, t, freq);
    f, m := freq[..], maxSym;
    if -remaining < maxFreq / 4 {
      OffsetUpdate(f, maxSym, freq[maxSym] + remaining, |f|);
      freq[maxSym] := freq[maxSym] + remaining;
      assert freq[..] == f[maxSym := freq[maxSym]];
    } else {
      ghost var stages := AdjustFreqs(freq, -remaining);
    }
    forall i | 0 <= i < |t| ensures freq[i] <= Pow2(bits) { CountBound(freq[..], i, |t|); }
    if Sum(t) == 0 { OnlyFirst(freq[..], |t|); }
    assert From(bits, t, freq[..], f, m, step);
  }

  lemma {:induction false} OnlyFirst(f: seq<nat>, n: nat)
    requires 0 < n <= |f| && forall i :: 1 <= i < |f| ==> f[i] == 0
    ensures Offset(f, n) == f[0]
  {
    if n > 1 { OnlyFirst(f, n - 1); } else { assert Offset(f, 0) == 0; }
  }
}
