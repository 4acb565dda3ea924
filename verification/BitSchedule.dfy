/** When the output bit stream keeps its bits: pushes and flushes in any order the comments of the source allow. */
module BitSchedule {
  import opened Bytes
  import opened Powers
  import opened BitStream

  /** A push of `width` bits, or a flush. */
  datatype Step = Put(width: nat) | Spill

  /** Bits in the accumulator after a step that found `held`. */
  function Held(held: nat, s: Step): nat
  {
    match s
    case Put(width) => held + width
    case Spill => held % 8
  }

  /** What `fse_out_push64` asks for: never more than 64 bits. */
  predicate Legal(held: nat, steps: seq<Step>)
    decreases |steps|
  {
    steps == [] || (Held(held, steps[0]) <= 64 && Legal(Held(held, steps[0]), steps[1..]))
  }

  function Width(steps: seq<Step>): nat
  {
    if steps == [] then 0 else (if steps[0].Put? then steps[0].width else 0) + Width(steps[1..])
  }

  /** No step finds 64 bits, except a flush after which no bit is pushed. */
  predicate NeverFull(held: nat, steps: seq<Step>)
    decreases |steps|
  {
    steps == []
    || ((held == 64 ==> steps[0].Spill? && Width(steps[1..]) == 0) && NeverFull(Held(held, steps[0]), steps[1..]))
  }

  ghost predicate Fit(steps: seq<Step>, values: seq<nat>)
  {
    |values| == |steps| && forall i :: 0 <= i < |steps| && steps[i].Put? ==> values[i] < Pow2(steps[i].width)
  }

  function Next(w: Words, s: Step, value: nat, residue: nat): Words
  {
    match s
    case Put(width) => w.Put(value, width, residue)
    case Spill => w.Spill(residue)
  }

  /** The machine's run; `residues` are the results of undefined shifts. */
  function Run(w: Words, steps: seq<Step>, values: seq<nat>, residues: seq<nat>): Words
    requires |values| == |residues| == |steps|
    decreases |steps|
  {
    if steps == [] then w
    else Run(Next(w, steps[0], values[0], residues[0]), steps[1..], values[1..], residues[1..])
  }

  /** The bits that were to be written. */
  function All(s: Bits, steps: seq<Step>, values: seq<nat>): Bits
    requires |values| == |steps|
    decreases |steps|
  {
    if steps == [] then s
    else All(if steps[0].Put? then s.Push(values[0], steps[0].width) else s, steps[1..], values[1..])
  }

  /** The bits that were written, leaving out what the accumulator holds above its count. */
  function Seen(w: Words): Bits
  {
    Bits(LittleEndian(w.buf) + Rem(w.accum, Pow2(w.nbits)) * Pow2(8 * |w.buf|), 8 * |w.buf| + w.nbits)
  }

  /** The finished stream holds exactly the bits pushed after `prefix`. */
  ghost predicate Holds(prefix: seq<byte>, steps: seq<Step>, values: seq<nat>, residues: seq<nat>)
    requires |values| == |residues| == |steps|
  {
    var w := Run(Words(prefix, 0, 0), steps, values, residues);
    Bits(LittleEndian(w.Finish()), 8 * |w.buf| + w.nbits) ==
      All(Bits(LittleEndian(prefix), 8 * |prefix|), steps, values)
  }

  // ---------------------------------------------------------------------------------------
  // Not full: the bits are kept

  /** The right bits and a clean accumulator, or nothing more to come. */
  ghost predicate Good(w: Words, s: Bits, rest: nat)
  {
    Seen(w) == s && w.nbits <= 64 && (w.accum < Pow2(w.nbits) || (w.nbits == 0 && rest == 0))
  }

  lemma RemSmall(x: nat, p: nat)
    requires x < p
    ensures Rem(x, p) == x
  {
  }

  lemma OneState(x: nat)
    ensures Rem(x, Pow2(0)) == 0 && Quot(x, Pow2(0)) == x && Or(x, 0) == x && Or(x, 0 * Pow2(0)) == x
  {
  }

  lemma PutKeeps(w: Words, s: Bits, value: nat, width: nat, residue: nat, rest: nat)
    requires Good(w, s, width + rest) && w.nbits < 64 && w.nbits + width <= 64 && value < Pow2(width)
    ensures Good(w.Put(value, width, residue), s.Push(value, width), rest)
  {
    hide Pow2, Or, LittleEndian, Rem;
    if w.accum < Pow2(w.nbits) {
      OrParts(w.accum, value, w.nbits);
      RemSmall(w.accum, Pow2(w.nbits));
      PushValid(Bits(w.accum, w.nbits), value, width);
      RemSmall(w.accum + value * Pow2(w.nbits), Pow2(w.nbits + width));
      PushTwice(Bits(LittleEndian(w.buf), 8 * |w.buf|), w.accum, w.nbits, value, width);
    } else {
      assert value == 0 by { assert Pow2(0) == 1 by { PowZero(); } }
      OneState(w.accum);
    }
  }

  lemma PowZero()
    ensures Pow2(0) == 1
  {
  }

  lemma SpillKeeps(w: Words, s: Bits, residue: nat, rest: nat)
    requires Good(w, s, rest) && (w.nbits == 64 ==> rest == 0)
    ensures Good(w.Spill(residue), s, rest)
  {
    hide Pow2, LittleEndian, Rem, Quot, LowBytes;
    SpillSeen(w, residue);
    var k := w.nbits / 8;
    if k < 8 {
      if w.accum < Pow2(w.nbits) {
        FlushValue(w.buf, w.accum, w.nbits, k);
      } else {
        OneState(w.accum);
      }
    }
  }

  /** A flush leaves what was seen, whatever the accumulator holds above its count. */
  lemma SpillSeen(w: Words, residue: nat)
    requires w.nbits <= 64
    ensures Seen(w.Spill(residue)) == Seen(w) && LittleEndian(w.Spill(residue).buf) >= LittleEndian(w.buf)
  {
    hide Pow2, LittleEndian, Rem, Quot, LowBytes;
    var k := w.nbits / 8;
    var p, q, b := Pow2(8 * k), Pow2(w.nbits - 8 * k), Pow2(8 * |w.buf|);
    var lo, hi := Rem(w.accum, p), Quot(w.accum, p);
    LittleEndianConcat(w.buf, LowBytes(w.accum, k));
    LowBytesValue(w.accum, k);
    if k < 8 {
      QuotRem(w.accum, p);
      DivModProduct(lo, hi, p, q);
      Pow2Add(w.nbits - 8 * k, 8 * k);
      Pow2Add(8 * k, 8 * |w.buf|);
      MulAssoc(Rem(hi, q), p, b);
      MulDist(lo, Rem(hi, q) * p, b);
    } else {
      OneState(residue);
    }
  }

  lemma {:induction false} RunKeeps(w: Words, s: Bits, steps: seq<Step>, values: seq<nat>, residues: seq<nat>)
    requires Legal(w.nbits, steps) && NeverFull(w.nbits, steps) && Fit(steps, values) && |residues| == |steps|
    requires Good(w, s, Width(steps))
    ensures Good(Run(w, steps, values, residues), All(s, steps, values), 0)
    decreases |steps|
  {
    if steps != [] {
      hide Pow2, Good, Words.Put, Words.Spill;
      GoodHeld(w, s, Width(steps));
      NextHeld(w, steps[0], values[0], residues[0]);
      match steps[0] {
        case Put(width) =>
          assert values[0] < Pow2(width);
          PutKeeps(w, s, values[0], width, residues[0], Width(steps[1..]));
          RunKeeps(w.Put(values[0], width, residues[0]), s.Push(values[0], width), steps[1..], values[1..],
            residues[1..]);
        case Spill =>
          SpillKeeps(w, s, residues[0], Width(steps));
          RunKeeps(w.Spill(residues[0]), s, steps[1..], values[1..], residues[1..]);
      }
    }
  }

  lemma GoodHeld(w: Words, s: Bits, rest: nat)
    requires Good(w, s, rest)
    ensures w.nbits <= 64
  {
  }

  lemma NextHeld(w: Words, s: Step, value: nat, residue: nat)
    ensures Next(w, s, value, residue).nbits == Held(w.nbits, s)
  {
  }

  lemma FinishSeen(w: Words)
    ensures LittleEndian(w.Finish()) >= Seen(w).v
    ensures w.accum < Pow2(w.nbits) || w.nbits == 0 ==> LittleEndian(w.Finish()) == Seen(w).v
  {
    hide Pow2, LittleEndian, Rem, Quot, LowBytes;
    var k := (w.nbits + 7) / 8;
    LittleEndianConcat(w.buf, LowBytes(w.accum, k));
    LowBytesValue(w.accum, k);
    RemMono(w.accum, w.nbits, 8 * k);
    MulMono(Rem(w.accum, Pow2(w.nbits)), Rem(w.accum, Pow2(8 * k)), Pow2(8 * |w.buf|));
    if w.accum < Pow2(w.nbits) {
      Pow2Mono(w.nbits, 8 * k);
      RemSmall(w.accum, Pow2(w.nbits));
      RemSmall(w.accum, Pow2(8 * k));
    }
  }

  lemma RemMono(x: nat, a: nat, b: nat)
    requires a <= b
    ensures Rem(x, Pow2(a)) <= Rem(x, Pow2(b))
  {
    hide Pow2, Rem, Quot;
    var p, q := Pow2(a), Pow2(b - a);
    QuotRem(x, p);
    DivModProduct(Rem(x, p), Quot(x, p), p, q);
    Pow2Add(b - a, a);
  }

  // ---------------------------------------------------------------------------------------
  // Full: zero bits come out as ones

  ghost predicate Blank(values: seq<nat>, residues: seq<nat>)
  {
    (forall i :: 0 <= i < |values| ==> values[i] == 0) && (forall i :: 0 <= i < |residues| ==> residues[i] == 1)
  }

  /** Something other than zeros has been written above the value `c`. */
  ghost predicate Dirty(w: Words, c: nat)
  {
    LittleEndian(w.buf) >= c && Seen(w).v > c && w.nbits <= 64
  }

  lemma OrOdd(a: nat)
    ensures Or(a, 1) % 2 == 1
  {
  }

  lemma OddSeen(w: Words, c: nat)
    requires LittleEndian(w.buf) >= c && w.accum % 2 == 1 && 0 < w.nbits <= 64
    ensures Dirty(w, c)
  {
    var p := Pow2(w.nbits - 1);
    assert Pow2(w.nbits) == 2 * p;
    var r := Rem(w.accum, 2 * p);
    OddRemainder(w.accum, p);
    hide Pow2, LittleEndian, Rem;
    MulMono(1, r, Pow2(8 * |w.buf|));
  }

  lemma OddRemainder(x: nat, p: nat)
    requires x % 2 == 1 && p > 0
    ensures Rem(x, 2 * p) >= 1
  {
    hide Rem, Quot;
    QuotRem(x, 2 * p);
    var q := Quot(x, 2 * p);
    assert q * (2 * p) == 2 * (q * p);
  }

  lemma NextDirty(w: Words, s: Step, c: nat)
    requires Dirty(w, c) && Held(w.nbits, s) <= 64
    ensures Dirty(Next(w, s, 0, 1), c)
  {
    hide Pow2, LittleEndian, Rem, Quot, LowBytes, Or;
    match s {
      case Put(width) =>
        if w.nbits < 64 {
          OrZero(w.accum, Pow2(w.nbits));
          RemMono(w.accum, w.nbits, w.nbits + width);
          MulMono(Rem(w.accum, Pow2(w.nbits)), Rem(w.accum, Pow2(w.nbits + width)), Pow2(8 * |w.buf|));
        } else {
          OrOdd(w.accum);
          OddSeen(w.Put(0, width, 1), c);
        }
      case Spill => SpillSeen(w, 1);
    }
  }

  lemma OrZero(a: nat, p: nat)
    ensures Or(a, 0 * p) == a
  {
  }

  lemma {:induction false} StaysDirty(w: Words, steps: seq<Step>, values: seq<nat>, residues: seq<nat>, c: nat)
    requires Dirty(w, c) && Legal(w.nbits, steps) && |values| == |residues| == |steps| && Blank(values, residues)
    ensures Dirty(Run(w, steps, values, residues), c)
    decreases |steps|
  {
    if steps != [] {
      hide Dirty, Next;
      NextDirty(w, steps[0], c);
      NextHeld(w, steps[0], 0, 1);
      StaysDirty(Next(w, steps[0], 0, 1), steps[1..], values[1..], residues[1..], c);
    }
  }

  /** A one left in an empty accumulator gets into the next bits pushed. */
  lemma {:induction false} LeftOver(w: Words, steps: seq<Step>, values: seq<nat>, residues: seq<nat>, c: nat)
    requires w.accum == 1 && w.nbits == 0 && LittleEndian(w.buf) >= c && Width(steps) > 0
    requires Legal(w.nbits, steps) && |values| == |residues| == |steps| && Blank(values, residues)
    ensures Dirty(Run(w, steps, values, residues), c)
    decreases |steps|
  {
    hide Dirty, LittleEndian, Pow2;
    OneState(1);
    var w' := Next(w, steps[0], 0, 1);
    NextHeld(w, steps[0], 0, 1);
    assert w'.accum == 1;
    if w'.nbits == 0 {
      assert w'.buf == w.buf;
      LeftOver(w', steps[1..], values[1..], residues[1..], c);
    } else {
      OddSeen(w', c);
      StaysDirty(w', steps[1..], values[1..], residues[1..], c);
    }
  }

  lemma {:induction false} GetsDirty(w: Words, steps: seq<Step>, values: seq<nat>, residues: seq<nat>, c: nat)
    requires LittleEndian(w.buf) >= c && w.nbits <= 64 && !NeverFull(w.nbits, steps)
    requires Legal(w.nbits, steps) && |values| == |residues| == |steps| && Blank(values, residues)
    ensures Dirty(Run(w, steps, values, residues), c)
    decreases |steps|
  {
    hide Dirty, LittleEndian, Pow2, Or, LowBytes, Rem, Quot, Seen;
    var s := steps[0];
    var w' := Next(w, s, 0, 1);
    NextHeld(w, s, 0, 1);
    if s.Spill? { SpillSeen(w, 1); }
    if w.nbits == 64 && s.Put? {
      OrOdd(w.accum);
      OddSeen(w', c);
      StaysDirty(w', steps[1..], values[1..], residues[1..], c);
    } else if w.nbits == 64 && Width(steps[1..]) > 0 {
      LeftOver(w', steps[1..], values[1..], residues[1..], c);
    } else {
      GetsDirty(w', steps[1..], values[1..], residues[1..], c);
    }
  }

  lemma {:induction false} AllBlank(s: Bits, steps: seq<Step>, values: seq<nat>, residues: seq<nat>)
    requires |values| == |steps| && Blank(values, residues)
    ensures All(s, steps, values).v == s.v
    decreases |steps|
  {
    if steps != [] {
      AllBlank(if steps[0].Put? then s.Push(0, steps[0].width) else s, steps[1..], values[1..], residues);
    }
  }

  // ---------------------------------------------------------------------------------------

  /**
    Any bits come out as they went in, whatever an undefined shift gives, exactly when no step
    finds the accumulator full; the exception is a last flush.
   */
  lemma KeptUnlessFull(prefix: seq<byte>, steps: seq<Step>)
    requires Legal(0, steps)
    ensures NeverFull(0, steps) <==>
      forall values, residues :: Fit(steps, values) && |residues| == |steps| ==> Holds(prefix, steps, values, residues)
  {
    if NeverFull(0, steps) {
      forall values, residues | Fit(steps, values) && |residues| == |steps|
        ensures Holds(prefix, steps, values, residues)
      {
        NotFullHolds(prefix, steps, values, residues);
      }
    } else {
      var values, residues := seq(|steps|, _ => 0), seq(|steps|, _ => 1);
      assert Fit(steps, values);
      FullLoses(prefix, steps, values, residues);
    }
  }

  lemma NotFullHolds(prefix: seq<byte>, steps: seq<Step>, values: seq<nat>, residues: seq<nat>)
    requires Legal(0, steps) && NeverFull(0, steps) && Fit(steps, values) && |residues| == |steps|
    ensures Holds(prefix, steps, values, residues)
  {
    hide Run, All, Legal, NeverFull, Width;
    var w0, s0 := Words(prefix, 0, 0), Bits(LittleEndian(prefix), 8 * |prefix|);
    assert Good(w0, s0, Width(steps));
    RunKeeps(w0, s0, steps, values, residues);
    FinishSeen(Run(w0, steps, values, residues));
  }

  lemma FullLoses(prefix: seq<byte>, steps: seq<Step>, values: seq<nat>, residues: seq<nat>)
    requires Legal(0, steps) && !NeverFull(0, steps) && |values| == |residues| == |steps| && Blank(values, residues)
    ensures !Holds(prefix, steps, values, residues)
  {
    hide Run, All, Legal, NeverFull, LittleEndian, Pow2, Words.Finish, Rem;
    var c := LittleEndian(prefix);
    GetsDirty(Words(prefix, 0, 0), steps, values, residues, c);
    FinishSeen(Run(Words(prefix, 0, 0), steps, values, residues));
    AllBlank(Bits(c, 8 * |prefix|), steps, values, residues);
  }

  /** Two pushes of 32 bits, a flush and one more push: allowed by the comments, but not kept. */
  lemma FullFlush(prefix: seq<byte>, width: nat)
    requires 0 < width <= 64
    ensures var steps := [Put(32), Put(32), Spill, Put(width)];
      && Legal(0, steps)
      && exists values, residues :: Fit(steps, values) && |residues| == 4 && !Holds(prefix, steps, values, residues)
  {
    hide Run, All, Fit;
    var steps := [Put(32), Put(32), Spill, Put(width)];
    var one, two, three := steps[1..], steps[2..], steps[3..];
    assert one[1..] == two && two[1..] == three && three[1..] == [];
    assert Legal(0, steps) && !NeverFull(0, steps) by {
      assert Width(three) == width;
      assert Legal(width, []) && Legal(0, three) && Legal(64, two) && Legal(32, one);
      assert !NeverFull(64, two) && !NeverFull(32, one);
    }
    KeptUnlessFull(prefix, steps);
  }
}
