/** The L, M, D streams: lengths and distances split into an FSE symbol and raw extra bits. */
module Lmd {
  import opened Bytes
  import opened BitStream
  import opened Powers
  import opened FseTables
  import opened Fse

  /** Literal length, match length, match distance. */
  datatype Kind = L | M | D

  function Symbols(kind: Kind): nat
  {
    if kind == D then 64 else 20
  }

  /** Log of the number of FSE states. */
  function StateBits(kind: Kind): nat
  {
    if kind == D then 8 else 6
  }

  function MaxValue(kind: Kind): nat
  {
    match kind case L => 315 case M => 2359 case D => 262139
  }

  /** `l_extra_bits`, `m_extra_bits`, `d_extra_bits`. */
  function ExtraBits(kind: Kind, sym: nat): nat
  {
    match kind
    case L => if sym < 16 then 0 else if sym == 16 then 2 else if sym == 17 then 3 else if sym == 18 then 5 else 8
    case M => if sym < 16 then 0 else if sym == 16 then 3 else if sym == 17 then 5 else if sym == 18 then 8 else 11
    case D => sym / 4
  }

  /** `l_base_value`, `m_base_value`, `d_base_value`; the distance table in closed form. */
  function BaseValue(kind: Kind, sym: nat): nat
  {
    match kind
    case L =>
      if sym <= 16 then sym else if sym == 17 then 20 else if sym == 18 then 28 else if sym == 19 then 60 else 316
    case M =>
      if sym <= 16 then sym else if sym == 17 then 24 else if sym == 18 then 56 else if sym == 19 then 312 else 2360
    case D => DBase(sym)
  }

  function DBase(sym: nat): nat
  {
    DBaseNonNegative(4 + sym % 4, Pow2(sym / 4));
    (4 + sym % 4) * Pow2(sym / 4) - 4
  }

  lemma DBaseNonNegative(a: nat, p: nat)
    requires a >= 4 && p >= 1
    ensures a * p >= 4
  {
  }

  /** The intervals of consecutive symbols follow each other without gaps. */
  lemma Contiguous(kind: Kind, sym: nat)
    requires sym < Symbols(kind)
    ensures BaseValue(kind, sym + 1) == BaseValue(kind, sym) + Pow2(ExtraBits(kind, sym))
  {
    if kind == D {
      DContiguous(sym);
    } else {
      assert Pow2(0) == 1 && Pow2(2) == 4 && Pow2(3) == 8 && Pow2(5) == 32;
      assert Pow2(8) == 256 && Pow2(11) == 8 * Pow2(8);
    }
  }

  lemma DContiguous(sym: nat)
    ensures DBase(sym + 1) == DBase(sym) + Pow2(sym / 4)
  {
    hide Pow2;
    var q, r := sym / 4, sym % 4;
    if r < 3 {
      assert (sym + 1) / 4 == q && (sym + 1) % 4 == r + 1;
      MulDist(4 + r, 1, Pow2(q));
    } else {
      assert (sym + 1) / 4 == q + 1 && (sym + 1) % 4 == 0;
      Pow2Succ(q);
    }
  }

  /** The last symbol, up to `sym`, whose interval starts at or before `v`. */
  function SymbolUpTo(kind: Kind, v: nat, sym: nat): (r: nat)
    requires BaseValue(kind, 0) == 0
    ensures r <= sym && BaseValue(kind, r) <= v
    ensures r < sym ==> v < BaseValue(kind, r + 1)
  {
    if sym == 0 || BaseValue(kind, sym) <= v then sym else SymbolUpTo(kind, v, sym - 1)
  }

  lemma BaseZero(kind: Kind)
    ensures BaseValue(kind, 0) == 0
  {
    assert Pow2(0) == 1;
  }

  function SymbolOf(kind: Kind, v: nat): (r: nat)
    ensures r < Symbols(kind)
  {
    BaseZero(kind);
    SymbolUpTo(kind, v, Symbols(kind) - 1)
  }

  lemma LastInterval(kind: Kind)
    ensures BaseValue(kind, Symbols(kind)) == MaxValue(kind) + 1
  {
    if kind == D {
      assert Pow2(16) == 65536 by { Pow2Add(8, 8); assert Pow2(8) == 256; }
    }
  }

  /** A value is its base plus what its extra bits can hold. */
  lemma SplitValue(kind: Kind, v: nat)
    requires v <= MaxValue(kind)
    ensures var sym := SymbolOf(kind, v); BaseValue(kind, sym) <= v < BaseValue(kind, sym) + Pow2(ExtraBits(kind, sym))
  {
    BaseZero(kind);
    LastInterval(kind);
    Contiguous(kind, SymbolOf(kind, v));
  }

  // ---------------------------------------------------------------------------------------
  // The encoder's lookup tables, written as runs of equal symbols

  function Repeat(n: nat, x: nat): (r: seq<nat>)
    ensures |r| == n && forall i :: 0 <= i < n ==> r[i] == x
  {
    seq(n, _ => x)
  }

  function Total(widths: seq<nat>): nat
  {
    if widths == [] then 0 else widths[0] + Total(widths[1..])
  }

  /** Consecutive symbols from `sym` on, each as often as its width says. */
  function Expand(widths: seq<nat>, sym: nat): (r: seq<nat>)
    ensures |r| == Total(widths)
  {
    if widths == [] then [] else Repeat(widths[0], sym) + Expand(widths[1..], sym + 1)
  }

  lemma {:induction false} ExpandAt(widths: seq<nat>, sym: nat, v: nat)
    requires v < Total(widths)
    ensures var k := Expand(widths, sym)[v] - sym;
      0 <= k < |widths| && Total(widths[..k]) <= v < Total(widths[..k + 1])
  {
    if v < widths[0] {
      assert widths[..1][1..] == [];
    } else {
      ExpandAt(widths[1..], sym + 1, v - widths[0]);
      var k := Expand(widths, sym)[v] - sym;
      assert widths[..k][1..] == widths[1..][..k - 1] && widths[..k + 1][1..] == widths[1..][..k];
    }
  }

  lemma {:induction false} TotalNext(widths: seq<nat>, k: nat)
    requires k < |widths|
    ensures Total(widths[..k + 1]) == Total(widths[..k]) + widths[k]
  {
    if k == 0 {
      assert widths[..1][1..] == [];
    } else {
      TotalNext(widths[1..], k - 1);
      assert widths[..k][1..] == widths[1..][..k - 1] && widths[..k + 1][1..] == widths[1..][..k];
    }
  }

  /** The runs of the length tables, and of a quarter of the distance table. */
  function Widths(kind: Kind): (r: seq<nat>)
    ensures |r| == if kind == D then 16 else 20
  {
    match kind
    case L => [1, 1, 1, 1, 1, 1, 1, 1, 1, 1, 1, 1, 1, 1, 1, 1, 4, 8, 32, 256]
    case M => [1, 1, 1, 1, 1, 1, 1, 1, 1, 1, 1, 1, 1, 1, 1, 1, 8, 32, 256, 2048]
    case D => [1, 1, 1, 1, 2, 2, 2, 2, 4, 4, 4, 4, 8, 8, 8, 8]
  }

  lemma WidthIs(kind: Kind, k: nat)
    requires k < |Widths(kind)|
    ensures Widths(kind)[k] == Pow2(ExtraBits(kind, k))
  {
    assert Pow2(0) == 1 && Pow2(1) == 2 && Pow2(2) == 4 && Pow2(3) == 8 && Pow2(5) == 32;
    assert Pow2(8) == 256 && Pow2(11) == 8 * Pow2(8);
  }

  lemma {:induction false} RunsStart(kind: Kind, k: nat)
    requires k <= |Widths(kind)|
    ensures Total(Widths(kind)[..k]) == BaseValue(kind, k)
  {
    hide Widths, BaseValue, ExtraBits;
    if k == 0 {
      BaseZero(kind);
    } else {
      RunsStart(kind, k - 1);
      TotalNext(Widths(kind), k - 1);
      WidthIs(kind, k - 1);
      Contiguous(kind, k - 1);
    }
  }

  lemma RunsEnd(kind: Kind)
    ensures Total(Widths(kind)) == if kind == D then 60 else MaxValue(kind) + 1
  {
    hide Widths, Total;
    RunsStart(kind, |Widths(kind)|);
    LastInterval(kind);
    assert Widths(kind)[..|Widths(kind)|] == Widths(kind);
    assert Pow2(4) == 16;
  }

  /** A quarter of the distance table, with the four entries that are never used. */
  function Quarter(sym: nat, pad: nat): (r: seq<nat>)
    ensures |r| == 64
  {
    RunsEnd(D);
    Expand(Widths(D), sym) + Repeat(4, pad)
  }

  function DTable(): (r: seq<nat>)
    ensures |r| == 256
  {
    Quarter(0, 16) + Quarter(16, 32) + Quarter(32, 48) + Quarter(48, 0)
  }

  /** The index computed by `d_base_from_value`. */
  function DIndex(v: nat): (r: nat)
    ensures r < 256
  {
    if v < 60 then v
    else if v < 1020 then (v - 60) / 16 + 64
    else if v < 16380 then (v - 1020) / 256 + 128
    else if v < 262140 then (v - 16380) / 4096 + 192
    else 0
  }

  /** `l_base_from_value`, `m_base_from_value` and `d_base_from_value`. */
  function TableSymbol(kind: Kind, v: nat): nat
    requires v <= MaxValue(kind)
  {
    RunsEnd(kind);
    if kind == D then DTable()[DIndex(v)] else Expand(Widths(kind), 0)[v]
  }

  lemma {:induction false} BaseMono(kind: Kind, a: nat, b: nat)
    requires a <= b <= Symbols(kind)
    ensures BaseValue(kind, a) <= BaseValue(kind, b)
  {
    hide BaseValue, ExtraBits;
    if a < b {
      BaseMono(kind, a, b - 1);
      Contiguous(kind, b - 1);
    }
  }

  lemma OnlySymbol(kind: Kind, v: nat, sym: nat)
    requires sym < Symbols(kind) && BaseValue(kind, sym) <= v < BaseValue(kind, sym + 1)
    ensures SymbolOf(kind, v) == sym
  {
    hide BaseValue, SymbolUpTo;
    BaseZero(kind);
    var r := SymbolOf(kind, v);
    if r < sym {
      BaseMono(kind, r + 1, sym);
    } else if sym < r {
      BaseMono(kind, sym + 1, r);
    }
  }

  /** A quarter's intervals are those of the first, stretched. */
  lemma Stretched(q: nat, k: nat)
    ensures DBase(16 * q + k) == Pow2(4 * q) * DBase(k) + (4 * Pow2(4 * q) - 4)
  {
    hide Pow2;
    assert (16 * q + k) / 4 == 4 * q + k / 4 && (16 * q + k) % 4 == k % 4;
    Pow2Add(4 * q, k / 4);
    var a, p, x := 4 + k % 4, Pow2(4 * q), Pow2(k / 4);
    DBaseNonNegative(a, x);
    assert a * (p * x) == p * (a * x);
    assert p * (a * x - 4) == p * (a * x) - p * 4;
  }

  lemma QuarterSymbol(q: nat, v: nat, i: nat)
    requires q < 4 && i < 60
    requires var p := Pow2(4 * q); i * p <= v - (4 * p - 4) < (i + 1) * p
    ensures Total(Widths(D)) == 60
    ensures var k := Expand(Widths(D), 16 * q)[i]; k < 64 && BaseValue(D, k) <= v < BaseValue(D, k + 1)
  {
    hide Pow2, Widths, DBase, Expand, Total;
    var p := Pow2(4 * q);
    RunsEnd(D);
    ExpandAt(Widths(D), 16 * q, i);
    var k := Expand(Widths(D), 16 * q)[i] - 16 * q;
    RunsStart(D, k);
    RunsStart(D, k + 1);
    Stretched(q, k);
    Stretched(q, k + 1);
    Within(p, 4 * p - 4, v, i, DBase(k), DBase(k + 1));
  }

  lemma Within(p: nat, c: nat, v: nat, i: nat, a: nat, b: nat)
    requires a <= i < b && i * p <= v - c < (i + 1) * p
    ensures p * a + c <= v < p * b + c
  {
    MulMono(a, i, p);
    MulMono(i + 1, b, p);
  }

  lemma QuarterAt(q: nat, i: nat)
    requires q < 4 && i < 60
    ensures Total(Widths(D)) == 60 && DTable()[64 * q + i] == Expand(Widths(D), 16 * q)[i]
  {
    hide Widths, Expand, Total;
    RunsEnd(D);
  }

  /** The table lookups find the interval a value lies in. */
  lemma TableFinds(kind: Kind, v: nat)
    requires v <= MaxValue(kind)
    ensures TableSymbol(kind, v) == SymbolOf(kind, v)
  {
    hide Widths, BaseValue, Expand, Total, SymbolOf, DTable, Pow2;
    if kind == D {
      DTableFinds(v);
    } else {
      RunsEnd(kind);
      ExpandAt(Widths(kind), 0, v);
      var k := Expand(Widths(kind), 0)[v];
      RunsStart(kind, k);
      RunsStart(kind, k + 1);
      OnlySymbol(kind, v, k);
    }
  }

  lemma DTableFinds(v: nat)
    requires v <= MaxValue(D)
    ensures DTable()[DIndex(v)] == SymbolOf(D, v)
  {
    hide Widths, Expand, Total, SymbolOf, Pow2, BaseValue, DTable;
    DPowers();
    RunsEnd(D);
    var q: nat := if v < 60 then 0 else if v < 1020 then 1 else if v < 16380 then 2 else 3;
    var i := DIndex(v) - 64 * q;
    QuarterSymbol(q, v, i);
    QuarterAt(q, i);
    OnlySymbol(D, v, DTable()[DIndex(v)]);
  }

  lemma DPowers()
    ensures Pow2(0) == 1 && Pow2(4) == 16 && Pow2(8) == 256 && Pow2(12) == 4096
  {
    assert Pow2(8) == 256;
    Pow2Add(8, 4);
  }

  // ---------------------------------------------------------------------------------------
  // Coding the triples of a block

  datatype Triple = Triple(l: nat, m: nat, d: nat)

  /** The frequency tables of a block. */
  datatype Freqs = Freqs(l: seq<nat>, m: seq<nat>, d: seq<nat>)

  function FreqOf(fr: Freqs, kind: Kind): seq<nat>
  {
    match kind case L => fr.l case M => fr.m case D => fr.d
  }

  /** Decoding order inside a triple. */
  function Lane(kind: Kind): (r: nat)
    ensures r < 3
  {
    match kind case L => 0 case M => 1 case D => 2
  }

  function ValueOf(t: Triple, kind: Kind): nat
  {
    match kind case L => t.l case M => t.m case D => t.d
  }

  function KindAt(i: nat): Kind
  {
    if i % 3 == 0 then L else if i % 3 == 1 then M else D
  }

  ghost function Coders(fr: Freqs): seq<Coder>
  {
    [Coder(fr.l, 6), Coder(fr.m, 6), Coder(fr.d, 8)]
  }

  /** One value as a symbol and extra bits. */
  ghost function ValueItem(kind: Kind, v: nat): Item
  {
    var sym := SymbolOf(kind, v);
    Item(Lane(kind), sym, if v < BaseValue(kind, sym) then 0 else v - BaseValue(kind, sym), ExtraBits(kind, sym))
  }

  /** L, M, D of the first triple, then of the second, and so on. */
  ghost function Items(ts: seq<Triple>): seq<Item>
  {
    seq(3 * |ts|, i requires 0 <= i < 3 * |ts| => ValueItem(KindAt(i), ValueOf(ts[i / 3], KindAt(i))))
  }

  /** A value whose symbol has a state in the block's table. */
  ghost predicate ValueOk(fr: Freqs, kind: Kind, v: nat)
  {
    v <= MaxValue(kind) && Occurs(FreqOf(fr, kind), StateBits(kind), SymbolOf(kind, v))
  }

  ghost predicate TriplesOk(fr: Freqs, ts: seq<Triple>)
  {
    forall i :: 0 <= i < |ts| ==> ValueOk(fr, L, ts[i].l) && ValueOk(fr, M, ts[i].m) && ValueOk(fr, D, ts[i].d)
  }

  lemma ValueItemOk(fr: Freqs, kind: Kind, v: nat)
    requires ValueOk(fr, kind, v)
    ensures ItemOk(Coders(fr), ValueItem(kind, v))
    ensures var it := ValueItem(kind, v); BaseValue(kind, it.sym) + it.extra == v
  {
    hide Pow2, Occurs, BaseValue, SymbolOf, ExtraBits;
    SplitValue(kind, v);
  }

  lemma ItemsAreOk(fr: Freqs, ts: seq<Triple>)
    requires TriplesOk(fr, ts)
    ensures ItemsOk(Coders(fr), Items(ts))
  {
    hide ItemOk, ValueItem, ValueOk;
    forall i | 0 <= i < 3 * |ts|
      ensures ItemOk(Coders(fr), Items(ts)[i])
    {
      ValueItemOk(fr, KindAt(i), ValueOf(ts[i / 3], KindAt(i)));
    }
  }

  /** Stream and states after coding all values from the `i`th on. */
  ghost function LmdState(fr: Freqs, ts: seq<Triple>, i: nat, st0: Bits): (r: (Bits, seq<nat>))
    requires TriplesOk(fr, ts) && i <= 3 * |ts|
    ensures |r.1| == 3
  {
    ItemsAreOk(fr, ts);
    EncodeItems(Coders(fr), Items(ts), i, st0)
  }

  /** Most bits one value takes: 14 for L, 17 for M, 23 for D. */
  function Budget(kind: Kind): nat
  {
    match kind case L => 14 case M => 17 case D => 23
  }

  lemma BudgetSuffices(kind: Kind, sym: nat)
    requires sym < Symbols(kind)
    ensures ExtraBits(kind, sym) + StateBits(kind) <= Budget(kind)
  {
  }

  lemma LmdStateStep(fr: Freqs, ts: seq<Triple>, i: nat, st0: Bits)
    requires TriplesOk(fr, ts) && i < 3 * |ts|
    ensures var it := ValueItem(KindAt(i), ValueOf(ts[i / 3], KindAt(i))); var r := LmdState(fr, ts, i + 1, st0);
      && ItemOk(Coders(fr), it) && StatesOk(Coders(fr), r.1)
      && LmdState(fr, ts, i, st0) == EncodeItem(Coders(fr), it, r.0, r.1)
  {
    ItemsAreOk(fr, ts);
    hide ItemOk, ValueItem, EncodeItem, Coders;
    assert ItemOk(Coders(fr), Items(ts)[i]);
  }

  /** Pushes the extra bits of a value and codes its symbol. */
  method EncodeValue(s: nat, t: seq<EncoderEntry>, out: OutStream, kind: Kind, v: nat,
                     ghost fr: Freqs, ghost ts: seq<Triple>, ghost i: nat, ghost st0: Bits)
    returns (s': nat)
    requires TriplesOk(fr, ts) && i < 3 * |ts| && kind == KindAt(i) && v == ValueOf(ts[i / 3], kind)
    requires EncoderTable(t, FreqOf(fr, kind), StateBits(kind))
    requires out.Valid() && out.nbits + Budget(kind) < 64
    requires var r := LmdState(fr, ts, i + 1, st0); out.View() == r.0 && s == r.1[Lane(kind)]
    modifies out`accum, out`nbits
    ensures out.Valid() && out.nbits <= old(out.nbits) + Budget(kind)
    ensures LmdState(fr, ts, i, st0) == (out.View(), LmdState(fr, ts, i + 1, st0).1[Lane(kind) := s'])
  {
    hide Pow2, EncodeSymbol, EncoderTable, Occurs, LmdState, BaseValue, SymbolOf, ExtraBits, TriplesOk, TableSymbol;
    LmdStateStep(fr, ts, i, st0);
    TriplesOkAt(fr, ts, i);
    SplitValue(kind, v);
    TableFinds(kind, v);
    var sym := TableSymbol(kind, v);
    BudgetSuffices(kind, sym);
    out.Push(ExtraBits(kind, sym), v - BaseValue(kind, sym));
    s' := Encode(s, t, out, sym, FreqOf(fr, kind), StateBits(kind));
  }

  lemma TriplesOkAt(fr: Freqs, ts: seq<Triple>, i: nat)
    requires TriplesOk(fr, ts) && i < 3 * |ts|
    ensures ValueOk(fr, KindAt(i), ValueOf(ts[i / 3], KindAt(i)))
  {
  }

  /** The encoder tables of a block. */
  datatype EncoderTables = EncoderTables(l: seq<EncoderEntry>, m: seq<EncoderEntry>, d: seq<EncoderEntry>)

  ghost predicate EncodersOk(e: EncoderTables, fr: Freqs)
  {
    && EncoderTable(e.l, fr.l, StateBits(L)) && EncoderTable(e.m, fr.m, StateBits(M))
    && EncoderTable(e.d, fr.d, StateBits(D))
  }

  /** One triple: distance first, literal length last, then a flush. */
  method EncodeTriple(e: EncoderTables, out: OutStream, tr: Triple, states: seq<nat>,
                      ghost fr: Freqs, ghost ts: seq<Triple>, ghost i: nat, ghost st0: Bits)
    returns (states': seq<nat>)
    requires TriplesOk(fr, ts) && i < |ts| && tr == ts[i] && EncodersOk(e, fr)
    requires out.Valid() && out.nbits <= 7
    requires (out.View(), states) == LmdState(fr, ts, 3 * i + 3, st0)
    modifies out
    ensures out.Valid() && out.nbits <= 7 && old(out.buf) <= out.buf && |out.buf| <= |old(out.buf)| + 8
    ensures (out.View(), states') == LmdState(fr, ts, 3 * i, st0)
  {
    hide Pow2, EncoderTable, LmdState, TriplesOk;
    TripleIndices(i);
    var d := EncodeValue(states[2], e.d, out, D, tr.d, fr, ts, 3 * i + 2, st0);
    var m := EncodeValue(states[1], e.m, out, M, tr.m, fr, ts, 3 * i + 1, st0);
    var l := EncodeValue(states[0], e.l, out, L, tr.l, fr, ts, 3 * i, st0);
    states' := [l, m, d];
    assert states[2 := d][1 := m][0 := l] == states';
    out.Flush();
  }

  lemma TripleIndices(i: nat)
    ensures KindAt(3 * i) == L && KindAt(3 * i + 1) == M && KindAt(3 * i + 2) == D
    ensures (3 * i) / 3 == i && (3 * i + 1) / 3 == i && (3 * i + 2) / 3 == i
  {
  }

  lemma LmdStateEnd(fr: Freqs, ts: seq<Triple>, st0: Bits)
    requires TriplesOk(fr, ts)
    ensures LmdState(fr, ts, 3 * |ts|, st0) == (st0, [0, 0, 0])
  {
    ItemsAreOk(fr, ts);
    hide Pow2, TriplesOk, ItemsOk;
    assert seq(3, _ => 0) == [0, 0, 0];
  }

  function Padding(): (r: seq<byte>)
    ensures |r| == 8
  {
    [0, 0, 0, 0, 0, 0, 0, 0]
  }

  /**
    The L, M, D loop of `lzfse_encode_matches`: eight padding bytes, then the triples from the last
    to the first. Fails when fewer than 16 bytes of room are left.
   */
  method EncodeTriples(e: EncoderTables, ts: seq<Triple>, dst: seq<byte>, room: nat, ghost fr: Freqs)
    returns (ok: bool, buf: seq<byte>, nbits: int, states: seq<nat>)
    requires TriplesOk(fr, ts) && EncodersOk(e, fr)
    ensures |dst| + 8 + 8 * |ts| + 16 <= room ==> ok
    ensures ok ==> -7 <= nbits <= 0 && dst + Padding() <= buf && |buf| <= |dst| + 8 * |ts| + 9 && |buf| <= room
    ensures ok ==> LmdPayload(fr, ts, dst + Padding(), buf, nbits, states)
  {
    hide Pow2, TriplesOk, LmdState, LittleEndian, EncodersOk, Padding;
    ok, buf, nbits, states := false, [], 0, [0, 0, 0];
    if |dst| + 8 > room {
      return;
    }
    var out := new OutStream(dst + Padding());
    ghost var st0 := out.View();
    LmdStateEnd(fr, ts, st0);
    var i := |ts|;
    while i > 0
      invariant 0 <= i <= |ts|
      invariant out.Valid() && out.nbits <= 7 && dst + Padding() <= out.buf && |out.buf| <= |dst| + 8 + 8 * (|ts| - i)
      invariant if i == |ts| then out.buf == dst + Padding() && out.nbits == 0 else |out.buf| + 8 <= room
      invariant (out.View(), states) == LmdState(fr, ts, 3 * i, st0)
    {
      if |out.buf| + 16 > room {
        return;
      }
      i := i - 1;
      states := EncodeTriple(e, out, ts[i], states, fr, ts, i, st0);
    }
    out.Finish();
    ok, buf, nbits := true, out.buf, out.nbits;
  }

  /** `buf`, its padding bits and the three states are what coding `ts` after `dst` produced. */
  ghost predicate LmdPayload(fr: Freqs, ts: seq<Triple>, dst: seq<byte>, buf: seq<byte>, nbits: int, states: seq<nat>)
  {
    && TriplesOk(fr, ts)
    && var r := LmdState(fr, ts, 0, Bits(LittleEndian(dst), 8 * |dst|));
       LittleEndian(buf) == r.0.v && 8 * |buf| + nbits == r.0.n && states == r.1
  }

  // ---------------------------------------------------------------------------------------
  // Decoding

  /** `fse_value_decoder_entry`. */
  datatype ValueEntry = ValueEntry(totalBits: int, valueBits: nat, delta: int, vbase: nat)

  function Extend(e: DecoderEntry, kind: Kind): ValueEntry
  {
    ValueEntry(e.k + ExtraBits(kind, e.symbol), ExtraBits(kind, e.symbol), e.delta, BaseValue(kind, e.symbol))
  }

  /** What `fse_init_value_decoder_table` has to establish: the FSE table with the split of each symbol. */
  ghost predicate ValueTable(vt: seq<ValueEntry>, t: seq<DecoderEntry>, freq: seq<nat>, kind: Kind)
  {
    && Normalized(freq, StateBits(kind)) && |freq| == Symbols(kind)
    && DecoderTable(t, freq, StateBits(kind))
    && |vt| == |t| && forall s :: 0 <= s < |t| ==> vt[s] == Extend(t[s], kind)
  }

  /** `fse_init_value_decoder_table`. */
  method InitValueDecoderTable(kind: Kind, freq: seq<nat>, vt: array<ValueEntry>) returns (ghost t: seq<DecoderEntry>)
    requires Normalized(freq, StateBits(kind)) && |freq| == Symbols(kind) && vt.Length == Pow2(StateBits(kind))
    modifies vt
    ensures ValueTable(vt[..], t, freq, kind)
  {
    var bits := StateBits(kind);
    hide DecoderEntryOf, Pow2, Extend, StateBits;
    var next := 0;
    t := seq(vt.Length, _ => DecoderEntry(0, 0, 0));
    for i := 0 to |freq|
      invariant next == Offset(freq, i) <= Pow2(bits)
      invariant Filled(t, freq, bits, i, 0)
      invariant forall s :: 0 <= s < next ==> vt[s] == Extend(t[s], kind)
    {
      var f := freq[i];
      OffsetMono(freq, i + 1, |freq|);
      for j := 0 to f
        invariant next == Offset(freq, i) + j
        invariant Filled(t, freq, bits, i, j)
        invariant forall s :: 0 <= s < next ==> vt[s] == Extend(t[s], kind)
      {
        var e := DecoderEntryOf(f, j, i, bits);
        ghost var before := t;
        t := t[next := e];
        FilledNext(before, t, freq, bits, i, j);
        vt[next] := Extend(e, kind);
        next := next + 1;
      }
      FilledSymbol(t, freq, bits, i);
    }
    FilledAll(t, freq, bits);
  }

  /** `fse_value_decode`. */
  method DecodeValue(s: nat, vt: seq<ValueEntry>, in_: InStream, ghost t: seq<DecoderEntry>, ghost freq: seq<nat>,
                     ghost kind: Kind)
    returns (s': nat, v: nat)
    requires in_.Valid() && ValueTable(vt, t, freq, kind) && s < |vt| && Budget(kind) <= in_.nbits
    modifies in_`accum, in_`nbits
    ensures in_.Valid() && s' < |vt| && in_.nbits >= old(in_.nbits) - Budget(kind)
    ensures 0 <= vt[s].totalBits <= old(in_.View()).n && in_.View() == old(in_.View()).Pop(vt[s].totalBits)
    ensures var x := old(in_.View()).Top(vt[s].totalBits);
      && v == vt[s].vbase + Rem(x, Pow2(vt[s].valueBits))
      && s' == vt[s].delta + Quot(x, Pow2(vt[s].valueBits))
  {
    ValueEntryRange(vt, t, freq, kind, s);
    hide Pow2, Quot, Rem, DecoderTable, Normalized, Extend, Budget;
    var e := vt[s];
    TopBound(in_, e.totalBits);
    QuotBound(in_.View().Top(e.totalBits), e.totalBits - e.valueBits, e.valueBits);
    var r := in_.Pull(e.totalBits);
    s', v := e.delta + Quot(r, Pow2(e.valueBits)), e.vbase + Rem(r, Pow2(e.valueBits));
  }

  /** A value entry leads to a state of the table and fits the budget. */
  lemma ValueEntryRange(vt: seq<ValueEntry>, t: seq<DecoderEntry>, freq: seq<nat>, kind: Kind, s: nat)
    requires ValueTable(vt, t, freq, kind) && s < |vt|
    ensures var e := vt[s];
      && 0 <= e.valueBits <= e.totalBits <= Budget(kind)
      && 0 <= e.delta && e.delta + Pow2(e.totalBits - e.valueBits) <= |vt|
  {
    DecoderTableClosed(t, freq, StateBits(kind));
    var i, j := FindSymbol(freq, |freq|, s);
    OffsetMono(freq, i + 1, |freq|);
    assert t[s].symbol == i by { hide Pow2; DecoderEntryFields(freq[i], j, i, StateBits(kind)); }
    BudgetSuffices(kind, i);
  }

  lemma QuotBound(x: nat, a: nat, b: nat)
    requires x < Pow2(a + b)
    ensures Quot(x, Pow2(b)) < Pow2(a)
  {
    hide Pow2, Quot, Rem;
    QuotRem(x, Pow2(b));
    Pow2Add(a, b);
    if Quot(x, Pow2(b)) >= Pow2(a) {
      MulMono(Pow2(a), Quot(x, Pow2(b)), Pow2(b));
      assert false;
    }
  }

  /** The value decoder tables of a block, with the FSE tables they extend. */
  datatype DecoderTables = DecoderTables(l: seq<ValueEntry>, m: seq<ValueEntry>, d: seq<ValueEntry>)

  datatype PlainTables = PlainTables(l: seq<DecoderEntry>, m: seq<DecoderEntry>, d: seq<DecoderEntry>)

  function ValueTableOf(v: DecoderTables, kind: Kind): seq<ValueEntry>
  {
    match kind case L => v.l case M => v.m case D => v.d
  }

  function PlainTableOf(p: PlainTables, kind: Kind): seq<DecoderEntry>
  {
    match kind case L => p.l case M => p.m case D => p.d
  }

  ghost predicate DecodersOk(v: DecoderTables, p: PlainTables, fr: Freqs)
  {
    ValueTable(v.l, p.l, fr.l, L) && ValueTable(v.m, p.m, fr.m, M) && ValueTable(v.d, p.d, fr.d, D)
  }

  ghost predicate StatesIn(v: DecoderTables, states: seq<nat>)
  {
    |states| == 3 && states[0] < |v.l| && states[1] < |v.m| && states[2] < |v.d|
  }

  /** The reader stands where the values from the `i`th on are still to come. */
  ghost predicate AtValue(fr: Freqs, ts: seq<Triple>, i: nat, st0: Bits, view: Bits, states: seq<nat>)
  {
    TriplesOk(fr, ts) && i <= 3 * |ts| && st0.Valid() && (view, states) == LmdState(fr, ts, i, st0)
  }

  lemma ValueUndone(fr: Freqs, ts: seq<Triple>, i: nat, st0: Bits, t: seq<DecoderEntry>)
    requires TriplesOk(fr, ts) && i < 3 * |ts| && st0.Valid()
    requires DecoderTable(t, FreqOf(fr, KindAt(i)), StateBits(KindAt(i)))
    ensures Undoes(t, StateBits(KindAt(i)), ValueItem(KindAt(i), ValueOf(ts[i / 3], KindAt(i))),
                   LmdState(fr, ts, i, st0), LmdState(fr, ts, i + 1, st0))
  {
    ItemsAreOk(fr, ts);
    hide Pow2, DecoderTable, EncodeItems, ItemsOk, SymbolOf, BaseValue, ExtraBits, TriplesOk, Undoes, Bits.Valid;
    ItemInverts(Coders(fr), Items(ts), i, st0, t);
  }

  /** The value entry of an item's state gives the item back as base plus extra bits. */
  lemma ExtendedItem(t: seq<DecoderEntry>, kind: Kind, it: Item, after: (Bits, seq<nat>), before: (Bits, seq<nat>))
    requires Undoes(t, StateBits(kind), it, after, before) && it.extraBits == ExtraBits(kind, it.sym)
    ensures it.lane < |after.1| && after.1[it.lane] < |t|
    ensures var e := Extend(t[after.1[it.lane]], kind);
      && 0 <= e.totalBits <= after.0.n
      && var x := after.0.Top(e.totalBits);
      && e.vbase + Rem(x, Pow2(e.valueBits)) == BaseValue(kind, it.sym) + it.extra
      && e.delta + Quot(x, Pow2(e.valueBits)) >= 0
      && before == (after.0.Pop(e.totalBits), after.1[it.lane := e.delta + Quot(x, Pow2(e.valueBits))])
  {
    hide Pow2, Quot, Rem, Bits.Top, Bits.Pop, BaseValue, ExtraBits, StateBits;
  }

  /** One value comes back. */
  lemma ValueInverts(fr: Freqs, ts: seq<Triple>, i: nat, st0: Bits, vt: seq<ValueEntry>, t: seq<DecoderEntry>)
    requires TriplesOk(fr, ts) && i < 3 * |ts| && st0.Valid() && ValueTable(vt, t, FreqOf(fr, KindAt(i)), KindAt(i))
    ensures var kind := KindAt(i); var r := LmdState(fr, ts, i, st0);
      && r.1[Lane(kind)] < |vt|
      && var e := vt[r.1[Lane(kind)]];
      && 0 <= e.totalBits <= r.0.n
      && var x := r.0.Top(e.totalBits);
      && e.vbase + Rem(x, Pow2(e.valueBits)) == ValueOf(ts[i / 3], kind)
      && e.delta + Quot(x, Pow2(e.valueBits)) >= 0
      && LmdState(fr, ts, i + 1, st0)
         == (r.0.Pop(e.totalBits), r.1[Lane(kind) := e.delta + Quot(x, Pow2(e.valueBits))])
  {
    hide Pow2, DecoderTable, LmdState, Quot, Rem, Bits.Top, Bits.Pop, BaseValue, ExtraBits, SymbolOf, Normalized,
      ValueOk,
         TriplesOk, Undoes, Bits.Valid, Extend, StateBits, KindAt;
    var kind := KindAt(i);
    TriplesOkAt(fr, ts, i);
    ValueItemOk(fr, kind, ValueOf(ts[i / 3], kind));
    ValueUndone(fr, ts, i, st0, t);
    ExtendedItem(t, kind, ValueItem(kind, ValueOf(ts[i / 3], kind)), LmdState(fr, ts, i, st0),
      LmdState(fr, ts, i + 1, st0));
  }

  /** One value of the decoding loop. */
  method ReadValue(kind: Kind, v: DecoderTables, in_: InStream, states: seq<nat>,
                   ghost p: PlainTables, ghost fr: Freqs, ghost ts: seq<Triple>, ghost i: nat, ghost st0: Bits)
    returns (value: nat, states': seq<nat>)
    requires DecodersOk(v, p, fr) && StatesIn(v, states) && in_.Valid() && Budget(kind) <= in_.nbits
    requires kind == KindAt(i)
    modifies in_`accum, in_`nbits
    ensures in_.Valid() && StatesIn(v, states') && in_.nbits >= old(in_.nbits) - Budget(kind)
    ensures i < 3 * |ts| && old(AtValue(fr, ts, i, st0, in_.View(), states)) ==>
      value == ValueOf(ts[i / 3], kind) && AtValue(fr, ts, i + 1, st0, in_.View(), states')
  {
    hide Pow2, Quot, Rem, Bits.Top, Bits.Pop, ValueTable, LmdState, TriplesOk, Bits.Valid, Budget;
    if i < 3 * |ts| && AtValue(fr, ts, i, st0, in_.View(), states) {
      ValueInverts(fr, ts, i, st0, ValueTableOf(v, kind), PlainTableOf(p, kind));
    }
    var s;
    s, value := DecodeValue(states[Lane(kind)], ValueTableOf(v, kind), in_, PlainTableOf(p, kind), FreqOf(fr, kind),
      kind);
    states' := states[Lane(kind) := s];
  }

  /** The values of one triple, in the order in which `lzfse_decode_lmd` reads them. */
  method ReadTriple(v: DecoderTables, in_: InStream, states: seq<nat>,
                    ghost p: PlainTables, ghost fr: Freqs, ghost ts: seq<Triple>, ghost i: nat, ghost st0: Bits)
    returns (ok: bool, tr: Triple, states': seq<nat>)
    requires DecodersOk(v, p, fr) && StatesIn(v, states) && in_.Valid()
    modifies in_
    ensures in_.Valid() && StatesIn(v, states')
    ensures i < |ts| && st0.n >= 63 && old(AtValue(fr, ts, 3 * i, st0, in_.View(), states)) ==>
      ok && tr == ts[i] && AtValue(fr, ts, 3 * i + 3, st0, in_.View(), states')
  {
    hide Pow2, DecodersOk, StatesIn, LmdState, TriplesOk, Bits.Valid;
    tr, states' := Triple(0, 0, 0), states;
    TripleIndices(i);
    if i < |ts| && AtValue(fr, ts, 3 * i, st0, in_.View(), states) {
      LmdStateValid(fr, ts, 3 * i, st0);
    }
    ok := in_.Flush();
    if !ok { return; }
    var l, m, d;
    l, states' := ReadValue(L, v, in_, states', p, fr, ts, 3 * i, st0);
    m, states' := ReadValue(M, v, in_, states', p, fr, ts, 3 * i + 1, st0);
    d, states' := ReadValue(D, v, in_, states', p, fr, ts, 3 * i + 2, st0);
    tr := Triple(l, m, d);
  }

  lemma LmdStateValid(fr: Freqs, ts: seq<Triple>, i: nat, st0: Bits)
    requires TriplesOk(fr, ts) && i <= 3 * |ts| && st0.Valid()
    ensures var r := LmdState(fr, ts, i, st0); r.0.Valid() && r.0.n >= st0.n
  {
    ItemsAreOk(fr, ts);
    EncodeItemsValid(Coders(fr), Items(ts), i, st0);
  }

  /**
    Reads `n` triples from the end of `buf`. A payload made by the encoder gives back its triples,
    and the states return to where coding started.
   */
  method DecodeTriples(v: DecoderTables, buf: seq<byte>, nbits: int, states0: seq<nat>, n: nat,
                       ghost p: PlainTables, ghost fr: Freqs, ghost original: seq<Triple>, ghost dst: seq<byte>)
    returns (ok: bool, ts: seq<Triple>, states: seq<nat>)
    requires DecodersOk(v, p, fr) && StatesIn(v, states0) && -7 <= nbits <= 0
    ensures LmdPayload(fr, original, dst, buf, nbits, states0) && n == |original| && |dst| >= 8 ==>
      ok && ts == original && states == [0, 0, 0]
    ensures ok ==> |ts| == n
  {
    hide Pow2, DecodersOk, StatesIn, LmdState, TriplesOk, LittleEndian;
    ghost var st0 := Bits(LittleEndian(dst), 8 * |dst|);
    LittleEndianBound(dst);
    if LmdPayload(fr, original, dst, buf, nbits, states0) { LmdStateValid(fr, original, 0, st0); }
    ts, states := [], states0;
    var in_ := new InStream(buf);
    ok := in_.Init(nbits);
    if ok {
      ok, ts, states := ReadTriples(v, in_, states0, n, p, fr, original, st0);
    }
  }

  /** The loop over the matches of a block. */
  method ReadTriples(v: DecoderTables, in_: InStream, states0: seq<nat>, n: nat,
                     ghost p: PlainTables, ghost fr: Freqs, ghost original: seq<Triple>, ghost st0: Bits)
    returns (ok: bool, ts: seq<Triple>, states: seq<nat>)
    requires DecodersOk(v, p, fr) && StatesIn(v, states0) && in_.Valid()
    modifies in_
    ensures n == |original| && st0.n >= 63 && old(AtValue(fr, original, 0, st0, in_.View(), states0)) ==>
      ok && ts == original && states == [0, 0, 0]
    ensures ok ==> |ts| == n
  {
    hide Pow2, DecodersOk, StatesIn, LmdState, TriplesOk, Bits.Valid;
    ghost var coded := n == |original| && st0.n >= 63 && AtValue(fr, original, 0, st0, in_.View(), states0);
    ok, ts, states := true, [], states0;
    for i := 0 to n
      invariant ok && |ts| == i && StatesIn(v, states) && in_.Valid()
      invariant coded ==> AtValue(fr, original, 3 * i, st0, in_.View(), states) && ts == original[..i]
    {
      var tr;
      ok, tr, states := ReadTriple(v, in_, states, p, fr, original, i, st0);
      if !ok { return; }
      ts := ts + [tr];
    }
    if coded { LmdStateEnd(fr, original, st0); }
  }

  /** Every block of in-range triples over normalized tables survives coding and decoding. */
  method TriplesRoundTrip(fr: Freqs, ts: seq<Triple>, dst: seq<byte>, room: nat)
    returns (coded: bool, result: seq<Triple>)
    requires Normalized(fr.l, StateBits(L)) && |fr.l| == Symbols(L)
    requires Normalized(fr.m, StateBits(M)) && |fr.m| == Symbols(M)
    requires Normalized(fr.d, StateBits(D)) && |fr.d| == Symbols(D)
    requires TriplesOk(fr, ts)
    ensures coded ==> result == ts
    ensures |dst| + 8 + 8 * |ts| + 16 <= room ==> coded
  {
    hide Pow2, TriplesOk, LmdState, EncoderTable, ValueTable, LittleEndian, LmdPayload;
    var e := EncoderTables([], [], []);
    var el := new EncoderEntry[|fr.l|](_ => EncoderEntry(0, 0, 0, 0));
    InitEncoderTable(StateBits(L), fr.l, el);
    var em := new EncoderEntry[|fr.m|](_ => EncoderEntry(0, 0, 0, 0));
    InitEncoderTable(StateBits(M), fr.m, em);
    var ed := new EncoderEntry[|fr.d|](_ => EncoderEntry(0, 0, 0, 0));
    InitEncoderTable(StateBits(D), fr.d, ed);
    var buf, nbits, states;
    coded, buf, nbits, states := EncodeTriples(EncoderTables(el[..], em[..], ed[..]), ts, dst, room, fr);
    result := [];
    if coded {
      var v, p := InitDecoders(fr);
      PayloadStatesIn(fr, ts, dst + Padding(), buf, nbits, states, v, p);
      var ok, final;
      ok, result, final := DecodeTriples(v, buf, nbits, states, |ts|, p, fr, ts, dst + Padding());
    }
  }

  method InitDecoders(fr: Freqs) returns (v: DecoderTables, ghost p: PlainTables)
    requires Normalized(fr.l, StateBits(L)) && |fr.l| == Symbols(L)
    requires Normalized(fr.m, StateBits(M)) && |fr.m| == Symbols(M)
    requires Normalized(fr.d, StateBits(D)) && |fr.d| == Symbols(D)
    ensures DecodersOk(v, p, fr)
  {
    hide Pow2, ValueTable;
    var none := ValueEntry(0, 0, 0, 0);
    var l := new ValueEntry[Pow2(StateBits(L))](_ => none);
    var m := new ValueEntry[Pow2(StateBits(M))](_ => none);
    var d := new ValueEntry[Pow2(StateBits(D))](_ => none);
    ghost var pl := InitValueDecoderTable(L, fr.l, l);
    ghost var pm := InitValueDecoderTable(M, fr.m, m);
    ghost var pd := InitValueDecoderTable(D, fr.d, d);
    v := DecoderTables(l[..], m[..], d[..]);
    p := PlainTables(pl, pm, pd);
  }

  lemma PayloadStatesIn(fr: Freqs, ts: seq<Triple>, dst: seq<byte>, buf: seq<byte>, nbits: int, states: seq<nat>,
                        v: DecoderTables, p: PlainTables)
    requires LmdPayload(fr, ts, dst, buf, nbits, states) && DecodersOk(v, p, fr)
    ensures StatesIn(v, states)
  {
    ItemsAreOk(fr, ts);
    hide Pow2, LittleEndian, EncodeItems, TriplesOk, ItemsOk;
    assert StatesOk(Coders(fr), states);
  }
}
