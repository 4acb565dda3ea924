/** FSE coding: table construction, one symbol, the four literal streams, and the L, M, D streams. */
module Fse {
  import opened Bytes
  import opened BitStream
  import opened Powers
  import opened FseTables

  /** A symbol that may occur in the data. */
  ghost predicate Occurs(freq: seq<nat>, bits: nat, sym: nat)
  {
    Normalized(freq, bits) && sym < |freq| && freq[sym] > 0
  }

  lemma OccursBounds(freq: seq<nat>, bits: nat, sym: nat)
    requires Occurs(freq, bits, sym)
    ensures 0 < freq[sym] && Offset(freq, sym) + freq[sym] <= Pow2(bits)
  {
    OffsetMono(freq, sym + 1, |freq|);
  }

  /** What `fse_init_encoder_table` has to establish. */
  ghost predicate EncoderTable(t: seq<EncoderEntry>, freq: seq<nat>, bits: nat)
  {
    |t| == |freq| && forall i :: 0 <= i < |freq| && 0 < freq[i] <= Pow2(bits) ==>
      t[i] == EncoderEntryOf(freq[i], Offset(freq, i), bits)
  }

  /** `s` is the `j`th state of symbol `i`. */
  ghost predicate StateOf(freq: seq<nat>, i: nat, j: nat, s: nat)
  {
    i < |freq| && j < freq[i] && s == Offset(freq, i) + j
  }

  /** What `fse_init_decoder_table` has to establish. */
  ghost predicate DecoderTable(t: seq<DecoderEntry>, freq: seq<nat>, bits: nat)
  {
    |t| == Pow2(bits) && forall i: nat, j: nat, s: nat :: StateOf(freq, i, j, s) && freq[i] <= Pow2(bits) && s < |t| ==>
      t[s] == DecoderEntryOf(freq[i], j, i, bits)
  }

  /** `fse_init_encoder_table`. */
  method InitEncoderTable(bits: nat, freq: seq<nat>, t: array<EncoderEntry>)
    requires t.Length == |freq| && Offset(freq, |freq|) <= Pow2(bits)
    modifies t
    ensures EncoderTable(t[..], freq, bits)
  {
    hide EncoderEntryOf, Pow2;
    var offset := 0;
    for i := 0 to |freq|
      invariant offset == Offset(freq, i)
      invariant forall k :: 0 <= k < i && freq[k] > 0 ==>
        freq[k] <= Pow2(bits) && t[k] == EncoderEntryOf(freq[k], Offset(freq, k), bits)
    {
      var f := freq[i];
      if f != 0 {
        OffsetMono(freq, i + 1, |freq|);
        t[i] := EncoderEntryOf(f, offset, bits);
        offset := offset + f;
      }
    }
  }

  /** `fse_init_decoder_table`: fails exactly when the frequencies exceed the states. */
  method InitDecoderTable(bits: nat, freq: seq<nat>, t: array<DecoderEntry>) returns (ok: bool)
    requires t.Length == Pow2(bits)
    modifies t
    ensures ok <==> Offset(freq, |freq|) <= Pow2(bits)
    ensures ok ==> DecoderTable(t[..], freq, bits)
  {
    hide DecoderEntryOf, Pow2;
    var next := 0;
    for i := 0 to |freq|
      invariant next == Offset(freq, i) <= Pow2(bits)
      invariant Filled(t[..], freq, bits, i, 0)
    {
      var f := freq[i];
      if next + f > Pow2(bits) {
        OffsetMono(freq, i + 1, |freq|);
        return false;
      }
      for j := 0 to f
        invariant next == Offset(freq, i) + j
        invariant Filled(t[..], freq, bits, i, j)
      {
        ghost var before := t[..];
        t[next] := DecoderEntryOf(f, j, i, bits);
        FilledNext(before, t[..], freq, bits, i, j);
        next := next + 1;
      }
      FilledSymbol(t[..], freq, bits, i);
    }
    ok := true;
    FilledAll(t[..], freq, bits);
  }

  /** All states of the symbols before `i` and the first `j` states of symbol `i` are in place. */
  ghost predicate Filled(t: seq<DecoderEntry>, freq: seq<nat>, bits: nat, i: nat, j: nat)
  {
    |t| == Pow2(bits) &&
    forall i': nat, j': nat, s: nat :: StateOf(freq, i', j', s) && (i' < i || (i' == i && j' < j)) ==>
      freq[i'] <= Pow2(bits) && s < |t| && t[s] == DecoderEntryOf(freq[i'], j', i', bits)
  }

  lemma FilledNext(t: seq<DecoderEntry>, t': seq<DecoderEntry>, freq: seq<nat>, bits: nat, i: nat, j: nat)
    requires Filled(t, freq, bits, i, j) && i < |freq| && j < freq[i] <= Pow2(bits)
    requires Offset(freq, i) + j < |t|
    requires t' == t[Offset(freq, i) + j := DecoderEntryOf(freq[i], j, i, bits)]
    ensures Filled(t', freq, bits, i, j + 1)
  {
    hide DecoderEntryOf, Pow2;
    forall i': nat, j': nat, s: nat | StateOf(freq, i', j', s) && (i' < i || (i' == i && j' < j + 1))
      ensures freq[i'] <= Pow2(bits) && s < |t'| && t'[s] == DecoderEntryOf(freq[i'], j', i', bits)
    {
      if i' < i {
        OffsetMono(freq, i' + 1, i);
      }
    }
  }

  lemma FilledSymbol(t: seq<DecoderEntry>, freq: seq<nat>, bits: nat, i: nat)
    requires i < |freq| && Filled(t, freq, bits, i, freq[i])
    ensures Filled(t, freq, bits, i + 1, 0)
  {
    hide DecoderEntryOf, Pow2;
    assert forall i': nat, j': nat, s: nat :: StateOf(freq, i', j', s) && i' == i ==> j' < freq[i];
  }

  lemma FilledAll(t: seq<DecoderEntry>, freq: seq<nat>, bits: nat)
    requires Filled(t, freq, bits, |freq|, 0)
    ensures DecoderTable(t, freq, bits)
  {
    hide DecoderEntryOf, Pow2;
  }

  /** `fse_encode` on the abstract stream: push the low bits of the state, move to the symbol's states. */
  function EncodeSymbol(freq: seq<nat>, bits: nat, st: Bits, s: nat, sym: nat): (r: (Bits, nat))
    requires Occurs(freq, bits, sym) && s < Pow2(bits)
    ensures r.1 < Pow2(bits)
  {
    OccursBounds(freq, bits, sym);
    StepInverts(freq[sym], Offset(freq, sym), s, sym, bits);
    var x := EncodeStep(EncoderEntryOf(freq[sym], Offset(freq, sym), bits), s);
    (st.Push(x.0, x.1), x.2)
  }

  lemma EncodeSymbolParts(freq: seq<nat>, bits: nat, st: Bits, s: nat, sym: nat) returns (b: nat, n: nat, s': nat)
    requires Occurs(freq, bits, sym) && s < Pow2(bits)
    ensures EncodeSymbol(freq, bits, st, s, sym) == (st.Push(b, n), s')
    ensures freq[sym] <= Pow2(bits) && LeadsBack(freq[sym], Offset(freq, sym), sym, bits, s, b, n, s')
  {
    OccursBounds(freq, bits, sym);
    hide Pow2, EncoderEntryOf, LeadsBack, EncodeStep, Quot, Rem, Normalized;
    StepInverts(freq[sym], Offset(freq, sym), s, sym, bits);
    var x := EncodeStep(EncoderEntryOf(freq[sym], Offset(freq, sym), bits), s);
    assert x.2 == EncodeSymbol(freq, bits, st, s, sym).1;
    b, n, s' := x.0, x.1, x.2;
  }

  /** `fse_decode` undoes `fse_encode`: symbol, state and stream all come back. */
  lemma DecodeSymbol(freq: seq<nat>, bits: nat, t: seq<DecoderEntry>, st: Bits, s: nat, sym: nat)
    requires Occurs(freq, bits, sym) && s < Pow2(bits) && st.Valid() && DecoderTable(t, freq, bits)
    ensures var (st', s') := EncodeSymbol(freq, bits, st, s, sym);
      && st'.Valid() && st.n <= st'.n <= st.n + bits
      && t[s'].symbol == sym && 0 <= t[s'].k == st'.n - st.n
      && t[s'].delta + st'.Top(t[s'].k) == s && st'.Pop(t[s'].k) == st
  {
    OccursBounds(freq, bits, sym);
    hide Pow2, DecoderEntryOf, Quot, Rem, EncodeSymbol, Normalized;
    var b, n, s' := EncodeSymbolParts(freq, bits, st, s, sym);
    PushValid(st, b, n);
    PopPush(st, b, n);
    assert StateOf(freq, sym, s' - Offset(freq, sym), s');
  }

  /** `fse_encode`. */
  method Encode(s: nat, t: seq<EncoderEntry>, out: OutStream, sym: nat, ghost freq: seq<nat>, ghost bits: nat)
    returns (s': nat)
    requires out.Valid() && EncoderTable(t, freq, bits) && Occurs(freq, bits, sym)
    requires s < Pow2(bits) && out.nbits + bits < 64
    modifies out`accum, out`nbits
    ensures out.Valid() && (out.View(), s') == EncodeSymbol(freq, bits, old(out.View()), s, sym)
    ensures out.nbits <= old(out.nbits) + bits && s' < Pow2(bits)
  {
    OccursBounds(freq, bits, sym);
    hide Pow2, EncoderEntryOf, EncodeSymbol, Quot, Rem, Normalized, DecoderEntryOf;
    var e := t[sym];
    StepInverts(freq[sym], Offset(freq, sym), s, sym, bits);
    EncodeSymbolIs(freq, bits, out.View(), s, sym);
    var x := EncodeStep(e, s);
    hide EncodeStep;
    out.Push(x.1, x.0);
    s' := x.2;
  }

  lemma EncodeSymbolIs(freq: seq<nat>, bits: nat, st: Bits, s: nat, sym: nat)
    requires Occurs(freq, bits, sym) && s < Pow2(bits)
    ensures 0 < freq[sym] <= Pow2(bits)
    ensures var e := EncoderEntryOf(freq[sym], Offset(freq, sym), bits);
      && 0 <= e.k && (e.k == 0 ==> e.s0 <= 0)
      && var x := EncodeStep(e, s); EncodeSymbol(freq, bits, st, s, sym) == (st.Push(x.0, x.1), x.2)
  {
    OccursBounds(freq, bits, sym);
    hide Pow2, EncoderEntryOf, EncodeStep, Quot, Rem, Normalized;
    StepInverts(freq[sym], Offset(freq, sym), s, sym, bits);
  }

  /** Every entry leads to a state of the table, whatever bits follow. */
  ghost predicate Closed(t: seq<DecoderEntry>, bits: nat)
  {
    |t| == Pow2(bits) && forall s :: 0 <= s < |t| ==>
      0 <= t[s].k <= bits && 0 <= t[s].delta && t[s].delta + Pow2(t[s].k) <= Pow2(bits)
  }

  /** Every state belongs to a symbol. */
  lemma {:induction false} FindSymbol(freq: seq<nat>, n: nat, s: nat) returns (i: nat, j: nat)
    requires n <= |freq| && s < Offset(freq, n)
    ensures i < n && StateOf(freq, i, j, s)
  {
    if s >= Offset(freq, n - 1) {
      i, j := n - 1, s - Offset(freq, n - 1);
    } else {
      i, j := FindSymbol(freq, n - 1, s);
    }
  }

  /** The table of a normalized histogram can be walked with any stream. */
  lemma DecoderTableClosed(t: seq<DecoderEntry>, freq: seq<nat>, bits: nat)
    requires Normalized(freq, bits) && DecoderTable(t, freq, bits)
    ensures Closed(t, bits)
  {
    hide Pow2, DecoderEntryOf;
    forall s | 0 <= s < |t|
      ensures 0 <= t[s].k <= bits && 0 <= t[s].delta && t[s].delta + Pow2(t[s].k) <= Pow2(bits)
    {
      var i, j := FindSymbol(freq, |freq|, s);
      OffsetMono(freq, i + 1, |freq|);
      var k := DecoderEntryOf(freq[i], j, i, bits).k;
      EntryInRange(freq[i], j, i, bits, if k >= 0 then Pow2(k) - 1 else 0);
    }
  }

  /** `fse_decode`. */
  method Decode(s: nat, t: seq<DecoderEntry>, in_: InStream, ghost bits: nat) returns (s': nat, sym: nat)
    requires in_.Valid() && Closed(t, bits) && s < |t| && bits <= in_.nbits
    modifies in_`accum, in_`nbits
    ensures in_.Valid() && in_.nbits == old(in_.nbits) - t[s].k
    ensures s' < |t| && sym == t[s].symbol && s' == t[s].delta + old(in_.View()).Top(t[s].k)
    ensures in_.View() == old(in_.View()).Pop(t[s].k)
  {
    hide Pow2, Quot, Rem;
    var e := t[s];
    TopBound(in_, e.k);
    var b := in_.Pull(e.k);
    s', sym := e.delta + b, e.symbol;
  }

  lemma TopBound(in_: InStream, n: nat)
    requires in_.Valid() && n <= in_.nbits
    ensures in_.View().Top(n) < Pow2(n)
  {
    hide Pow2, Quot, Rem;
    var p := Pow2(in_.nbits - n);
    PullValue(in_.buf[..in_.pos], in_.accum, in_.nbits, n);
    QuotRem(in_.accum, p);
    Pow2Add(n, in_.nbits - n);
    if Quot(in_.accum, p) >= Pow2(n) {
      MulMono(Pow2(n), Quot(in_.accum, p), p);
      assert false;
    }
  }

  // ---------------------------------------------------------------------------------------
  // Several coders sharing one stream

  /** A frequency table and the number of state bits. */
  datatype Coder = Coder(freq: seq<nat>, bits: nat)

  /** A symbol to be coded by coder `lane`, with `extraBits` raw bits below it. */
  datatype Item = Item(lane: nat, sym: nat, extra: nat, extraBits: nat)

  ghost predicate ItemOk(coders: seq<Coder>, it: Item)
  {
    && it.lane < |coders|
    && Occurs(coders[it.lane].freq, coders[it.lane].bits, it.sym)
    && it.extra < Pow2(it.extraBits)
  }

  ghost predicate ItemsOk(coders: seq<Coder>, items: seq<Item>)
  {
    forall i :: 0 <= i < |items| ==> ItemOk(coders, items[i])
  }

  ghost predicate StatesOk(coders: seq<Coder>, states: seq<nat>)
  {
    |states| == |coders| && forall l :: 0 <= l < |coders| ==> states[l] < Pow2(coders[l].bits)
  }

  /** Stream and states after coding one more item. */
  ghost function EncodeItem(coders: seq<Coder>, it: Item, st: Bits, states: seq<nat>): (r: (Bits, seq<nat>))
    requires ItemOk(coders, it) && StatesOk(coders, states)
    ensures StatesOk(coders, r.1)
  {
    var (st', s') := EncodeSymbol(coders[it.lane].freq, coders[it.lane].bits,
                                  st.Push(it.extra, it.extraBits), states[it.lane], it.sym);
    (st', states[it.lane := s'])
  }

  /** Coding `items[i..]`, the last one first, all states starting at 0. */
  ghost function EncodeItems(coders: seq<Coder>, items: seq<Item>, i: nat, st0: Bits): (r: (Bits, seq<nat>))
    requires ItemsOk(coders, items) && i <= |items|
    ensures StatesOk(coders, r.1)
    decreases |items| - i
  {
    if i == |items| then (st0, seq(|coders|, _ => 0))
    else
      var (st, states) := EncodeItems(coders, items, i + 1, st0);
      EncodeItem(coders, items[i], st, states)
  }

  lemma EncodeItemValid(coders: seq<Coder>, it: Item, st: Bits, states: seq<nat>)
    requires ItemOk(coders, it) && StatesOk(coders, states) && st.Valid()
    ensures var r := EncodeItem(coders, it, st, states);
      r.0.Valid() && st.n + it.extraBits <= r.0.n <= st.n + it.extraBits + coders[it.lane].bits
  {
    hide Pow2, EncodeSymbol, Occurs;
    var st1 := st.Push(it.extra, it.extraBits);
    PushValid(st, it.extra, it.extraBits);
    var b, n, s' := EncodeSymbolParts(coders[it.lane].freq, coders[it.lane].bits, st1, states[it.lane], it.sym);
    PushValid(st1, b, n);
  }

  lemma {:induction false} EncodeItemsValid(coders: seq<Coder>, items: seq<Item>, i: nat, st0: Bits)
    requires ItemsOk(coders, items) && i <= |items| && st0.Valid()
    ensures var r := EncodeItems(coders, items, i, st0); r.0.Valid() && r.0.n >= st0.n
    decreases |items| - i
  {
    hide Pow2, EncodeItem, ItemOk;
    if i < |items| {
      EncodeItemsValid(coders, items, i + 1, st0);
      var (st, states) := EncodeItems(coders, items, i + 1, st0);
      assert ItemOk(coders, items[i]);
      EncodeItemValid(coders, items[i], st, states);
    }
  }

  /**
    Reading as many bits as the table entry and the extra bits ask for, from `after`, gives the
    symbol and the extra bits of `it`, and leads to the stream and states `before`.
   */
  ghost predicate Undoes(t: seq<DecoderEntry>, bits: nat, it: Item, after: (Bits, seq<nat>), before: (Bits, seq<nat>))
  {
    && it.lane < |after.1| == |before.1| && after.1[it.lane] < |t|
    && var e := t[after.1[it.lane]];
    && e.symbol == it.sym && 0 <= e.k <= bits && e.k + it.extraBits <= after.0.n
    && var x := after.0.Top(e.k + it.extraBits);
    && Rem(x, Pow2(it.extraBits)) == it.extra
    && before.0 == after.0.Pop(e.k + it.extraBits)
    && e.delta + Quot(x, Pow2(it.extraBits)) == before.1[it.lane]
    && before.1 == after.1[it.lane := before.1[it.lane]]
  }

  /** One item comes back. */
  lemma DecodeItem(coders: seq<Coder>, it: Item, st: Bits, states: seq<nat>, t: seq<DecoderEntry>)
    requires ItemOk(coders, it) && StatesOk(coders, states) && st.Valid()
    requires DecoderTable(t, coders[it.lane].freq, coders[it.lane].bits)
    ensures Undoes(t, coders[it.lane].bits, it, EncodeItem(coders, it, st, states), (st, states))
  {
    var freq, bits := coders[it.lane].freq, coders[it.lane].bits;
    var st1 := st.Push(it.extra, it.extraBits);
    PushValid(st, it.extra, it.extraBits);
    assert |t| == Pow2(bits);
    hide Pow2, EncodeSymbol, Occurs, DecoderTable, Quot, Rem, Bits.Top, Bits.Pop, LeadsBack;
    DecodeSymbol(freq, bits, t, st1, states[it.lane], it.sym);
    var b, n, s' := EncodeSymbolParts(freq, bits, st1, states[it.lane], it.sym);
    PopPush(st1, b, n);
    PopTwice(st, it.extra, it.extraBits, b, n);
  }

  /** Decoding step by step: from the state for `items[i..]` to the state for `items[i + 1..]`. */
  lemma ItemInverts(coders: seq<Coder>, items: seq<Item>, i: nat, st0: Bits, t: seq<DecoderEntry>)
    requires ItemsOk(coders, items) && i < |items| && st0.Valid() && items[i].lane < |coders|
    requires DecoderTable(t, coders[items[i].lane].freq, coders[items[i].lane].bits)
    ensures Undoes(t, coders[items[i].lane].bits, items[i],
                   EncodeItems(coders, items, i, st0), EncodeItems(coders, items, i + 1, st0))
  {
    hide Pow2, Occurs, DecoderTable, EncodeItem, Undoes;
    var (st, states) := EncodeItems(coders, items, i + 1, st0);
    EncodeItemsValid(coders, items, i + 1, st0);
    assert ItemOk(coders, items[i]);
    DecodeItem(coders, items[i], st, states, t);
  }

  // ---------------------------------------------------------------------------------------
  // Literals: four interleaved states over one stream

  const LITERAL_BITS: nat := 10

  ghost function LiteralCoders(freq: seq<nat>): seq<Coder>
  {
    var c := Coder(freq, LITERAL_BITS);
    [c, c, c, c]
  }

  ghost function LiteralItems(literals: seq<nat>): seq<Item>
  {
    seq(|literals|, i requires 0 <= i < |literals| => Item(i % 4, literals[i], 0, 0))
  }

  ghost predicate LiteralsOk(freq: seq<nat>, literals: seq<nat>)
  {
    |literals| % 4 == 0 && forall i :: 0 <= i < |literals| ==> Occurs(freq, LITERAL_BITS, literals[i])
  }

  lemma LiteralItemsOk(freq: seq<nat>, literals: seq<nat>)
    requires LiteralsOk(freq, literals)
    ensures ItemsOk(LiteralCoders(freq), LiteralItems(literals))
  {
    hide Occurs;
    assert Pow2(0) == 1;
  }

  /** The stream and the four states after coding `literals[i..]`. */
  ghost function LiteralState(freq: seq<nat>, literals: seq<nat>, i: nat, st0: Bits): (r: (Bits, seq<nat>))
    requires LiteralsOk(freq, literals) && i <= |literals|
    ensures |r.1| == 4 && forall l :: 0 <= l < 4 ==> r.1[l] < Pow2(LITERAL_BITS)
  {
    LiteralItemsOk(freq, literals);
    EncodeItems(LiteralCoders(freq), LiteralItems(literals), i, st0)
  }

  /** One literal. */
  method EncodeLiteral(s: nat, t: seq<EncoderEntry>, out: OutStream, ghost freq: seq<nat>, literals: seq<nat>, i: nat,
                       ghost st0: Bits)
    returns (s': nat)
    requires LiteralsOk(freq, literals) && i < |literals|
    requires EncoderTable(t, freq, LITERAL_BITS)
    requires out.Valid() && out.nbits + LITERAL_BITS < 64
    requires var r := LiteralState(freq, literals, i + 1, st0); out.View() == r.0 && s == r.1[i % 4]
    modifies out`accum, out`nbits
    ensures out.Valid() && out.nbits <= old(out.nbits) + LITERAL_BITS
    ensures var r := LiteralState(freq, literals, i + 1, st0);
      LiteralState(freq, literals, i, st0) == (out.View(), r.1[i % 4 := s'])
  {
    LiteralItemsOk(freq, literals);
    hide Pow2, EncodeSymbol, EncoderTable, Occurs;
    ghost var coders, it := LiteralCoders(freq), LiteralItems(literals)[i];
    ghost var st := out.View();
    assert st.Push(0, 0) == st;
    s' := Encode(s, t, out, literals[i], freq, LITERAL_BITS);
    assert EncodeItems(coders, LiteralItems(literals), i, st0)
        == EncodeItem(coders, it, st, LiteralState(freq, literals, i + 1, st0).1);
  }

  /** Four literals of the coding loop. */
  method EncodeFour(states: seq<nat>, t: seq<EncoderEntry>, out: OutStream, ghost freq: seq<nat>, literals: seq<nat>,
                    i: nat, ghost st0: Bits)
    returns (states': seq<nat>)
    requires LiteralsOk(freq, literals) && i % 4 == 0 && i + 4 <= |literals|
    requires EncoderTable(t, freq, LITERAL_BITS)
    requires out.Valid() && out.nbits <= 7
    requires (out.View(), states) == LiteralState(freq, literals, i + 4, st0)
    modifies out`accum, out`nbits
    ensures out.Valid() && out.nbits <= 47 && (out.View(), states') == LiteralState(freq, literals, i, st0)
  {
    hide Pow2, EncoderTable, Occurs, LiteralState;
    var s3 := EncodeLiteral(states[3], t, out, freq, literals, i + 3, st0);
    var s2 := EncodeLiteral(states[2], t, out, freq, literals, i + 2, st0);
    var s1 := EncodeLiteral(states[1], t, out, freq, literals, i + 1, st0);
    var s0 := EncodeLiteral(states[0], t, out, freq, literals, i, st0);
    states' := [s0, s1, s2, s3];
    assert states[3 := s3][2 := s2][1 := s1][0 := s0] == states';
  }

  /**
    The literal loop of `lzfse_encode_matches`: appends the literal payload to `dst`; `room` is the
    capacity. Fails when fewer than 16 bytes of room are left.
   */
  method EncodeLiterals(t: seq<EncoderEntry>, literals: seq<nat>, dst: seq<byte>, room: nat, ghost freq: seq<nat>)
    returns (ok: bool, buf: seq<byte>, nbits: int, states: seq<nat>)
    requires LiteralsOk(freq, literals) && EncoderTable(t, freq, LITERAL_BITS)
    ensures |dst| + 2 * |literals| + 16 <= room ==> ok
    ensures ok ==>
      -7 <= nbits <= 0 && dst <= buf && |buf| <= |dst| + 2 * |literals| + 1 && (|dst| <= room ==> |buf| <= room)
    ensures ok ==> var r := LiteralState(freq, literals, 0, Bits(LittleEndian(dst), 8 * |dst|));
      LittleEndian(buf) == r.0.v && 8 * |buf| + nbits == r.0.n && states == r.1
  {
    hide Pow2, EncoderTable, Occurs, LiteralState, LittleEndian;
    var out := new OutStream(dst);
    ghost var st0 := out.View();
    states := [0, 0, 0, 0];
    var i: nat := |literals|;
    LiteralStateEnd(freq, literals, st0);
    while i > 0
      invariant i <= |literals| && i % 4 == 0
      invariant out.Valid() && out.nbits <= 7 && dst <= out.buf
      invariant |out.buf| <= |dst| + 2 * (|literals| - i)
      invariant if i == |literals| then out.buf == dst && out.nbits == 0 else |out.buf| + 8 <= room
      invariant (out.View(), states) == LiteralState(freq, literals, i, st0)
    {
      if |out.buf| + 16 > room {
        return false, [], 0, states;
      }
      i := i - 4;
      states := EncodeFour(states, t, out, freq, literals, i, st0);
      out.Flush();
    }
    out.Finish();
    ok, buf, nbits := true, out.buf, out.nbits;
  }

  lemma LiteralStateEnd(freq: seq<nat>, literals: seq<nat>, st0: Bits)
    requires LiteralsOk(freq, literals)
    ensures LiteralState(freq, literals, |literals|, st0) == (st0, [0, 0, 0, 0])
  {
    LiteralItemsOk(freq, literals);
    hide Pow2, Occurs;
    assert seq(4, _ => 0) == [0, 0, 0, 0];
  }

  /** One literal comes back. */
  lemma LiteralInverts(freq: seq<nat>, literals: seq<nat>, i: nat, st0: Bits, t: seq<DecoderEntry>)
    requires LiteralsOk(freq, literals) && i < |literals| && st0.Valid() && DecoderTable(t, freq, LITERAL_BITS)
    ensures Undoes(t, LITERAL_BITS, Item(i % 4, literals[i], 0, 0),
                   LiteralState(freq, literals, i, st0), LiteralState(freq, literals, i + 1, st0))
  {
    LiteralItemsOk(freq, literals);
    hide Pow2, Occurs, DecoderTable, EncodeItems, ItemsOk, Bits.Valid, Undoes;
    ItemInverts(LiteralCoders(freq), LiteralItems(literals), i, st0, t);
  }

  /** An item without extra bits is read with the entry's own bits. */
  lemma PlainItem(t: seq<DecoderEntry>, bits: nat, it: Item, after: (Bits, seq<nat>), before: (Bits, seq<nat>))
    requires Undoes(t, bits, it, after, before) && it.extraBits == 0
    ensures it.lane < |after.1| && after.1[it.lane] < |t|
    ensures var e := t[after.1[it.lane]];
      && e.symbol == it.sym && 0 <= e.k <= after.0.n && e.delta + after.0.Top(e.k) >= 0
      && before == (after.0.Pop(e.k), after.1[it.lane := e.delta + after.0.Top(e.k)])
  {
    hide Pow2, Quot, Rem, Bits.Top, Bits.Pop;
    QuotOne(after.0.Top(t[after.1[it.lane]].k));
  }

  lemma QuotOne(x: nat)
    ensures Quot(x, Pow2(0)) == x
  {
  }

  lemma LiteralStateValid(freq: seq<nat>, literals: seq<nat>, i: nat, st0: Bits)
    requires LiteralsOk(freq, literals) && i <= |literals| && st0.Valid()
    ensures var r := LiteralState(freq, literals, i, st0); r.0.Valid() && r.0.n >= st0.n
  {
    LiteralItemsOk(freq, literals);
    EncodeItemsValid(LiteralCoders(freq), LiteralItems(literals), i, st0);
  }

  /** `buf`, its padding and the four states are what coding `literals` after `dst` produced. */
  ghost predicate LiteralPayload(freq: seq<nat>, literals: seq<nat>, dst: seq<byte>, buf: seq<byte>, nbits: int,
                                 states: seq<nat>)
  {
    && LiteralsOk(freq, literals)
    && var r := LiteralState(freq, literals, 0, Bits(LittleEndian(dst), 8 * |dst|));
       LittleEndian(buf) == r.0.v && 8 * |buf| + nbits == r.0.n && states == r.1
  }

  /** The reader stands where `literals[i..]` are still to come. */
  ghost predicate AtLiteral(freq: seq<nat>, literals: seq<nat>, i: nat, st0: Bits, view: Bits, states: seq<nat>)
  {
    LiteralsOk(freq, literals) && i <= |literals| && st0.Valid() &&
      (view, states) == LiteralState(freq, literals, i, st0)
  }

  ghost predicate InTable(t: seq<DecoderEntry>, states: seq<nat>)
  {
    |states| == 4 && forall l :: 0 <= l < 4 ==> states[l] < |t|
  }

  /** Four literals of the decoding loop. */
  method DecodeFour(t: seq<DecoderEntry>, in_: InStream, states: seq<nat>, ghost freq: seq<nat>,
                    ghost original: seq<nat>, ghost i: nat, ghost st0: Bits)
    returns (a: seq<nat>, states': seq<nat>)
    requires DecoderTable(t, freq, LITERAL_BITS) && Closed(t, LITERAL_BITS)
    requires InTable(t, states) && in_.Valid() && in_.nbits >= 56 && i % 4 == 0
    modifies in_`accum, in_`nbits
    ensures in_.Valid() && |a| == 4 && InTable(t, states')
    ensures i + 4 <= |original| && old(AtLiteral(freq, original, i, st0, in_.View(), states)) ==>
      a == original[i..i + 4] && AtLiteral(freq, original, i + 4, st0, in_.View(), states')
  {
    hide Pow2, DecoderTable, LiteralsOk, LiteralState, Bits.Top, Bits.Pop, Bits.Valid, Undoes;
    ghost var coded := i + 4 <= |original| && AtLiteral(freq, original, i, st0, in_.View(), states);
    a, states' := [], states;
    for l := 0 to 4
      invariant in_.Valid() && in_.nbits >= 56 - 10 * l && |a| == l && InTable(t, states')
      invariant coded ==> a == original[i..i + l] && AtLiteral(freq, original, i + l, st0, in_.View(), states')
    {
      if coded {
        LiteralInverts(freq, original, i + l, st0, t);
        PlainItem(t, LITERAL_BITS, Item((i + l) % 4, original[i + l], 0, 0),
                  LiteralState(freq, original, i + l, st0), LiteralState(freq, original, i + l + 1, st0));
      }
      var s, sym := Decode(states'[l], t, in_, LITERAL_BITS);
      a, states' := a + [sym], states'[l := s];
    }
  }

  /**
    The literal loop of `lzfse_decode`: reads `n` literals from the end of `buf`. A payload made by
    the encoder gives back its literals, and the states return to where coding started.
   */
  method DecodeLiterals(t: seq<DecoderEntry>, buf: seq<byte>, nbits: int, states0: seq<nat>, n: nat,
                        ghost freq: seq<nat>, ghost original: seq<nat>, ghost dst: seq<byte>)
    returns (ok: bool, literals: seq<nat>, states: seq<nat>)
    requires Normalized(freq, LITERAL_BITS) && DecoderTable(t, freq, LITERAL_BITS)
    requires -7 <= nbits <= 0 && n % 4 == 0 && InTable(t, states0)
    ensures LiteralPayload(freq, original, dst, buf, nbits, states0) && n == |original| && |dst| >= 8 ==>
      ok && literals == original && states == [0, 0, 0, 0]
    ensures ok ==> |literals| == n
  {
    DecoderTableClosed(t, freq, LITERAL_BITS);
    hide Pow2, DecoderTable, Normalized, LiteralsOk, LiteralState, LittleEndian, Closed, InTable;
    ghost var coded := LiteralPayload(freq, original, dst, buf, nbits, states0) && n == |original| && |dst| >= 8;
    ghost var st0 := Bits(LittleEndian(dst), 8 * |dst|);
    LittleEndianBound(dst);
    if coded { LiteralStateValid(freq, original, 0, st0); }
    literals, states := [], states0;
    var in_ := new InStream(buf);
    ok := in_.Init(nbits);
    if ok {
      ok, literals, states := DecodeGroups(t, in_, states0, n, freq, original, st0);
    }
  }

  /** The loop over groups of four. */
  method DecodeGroups(t: seq<DecoderEntry>, in_: InStream, states0: seq<nat>, n: nat,
                      ghost freq: seq<nat>, ghost original: seq<nat>, ghost st0: Bits)
    returns (ok: bool, literals: seq<nat>, states: seq<nat>)
    requires DecoderTable(t, freq, LITERAL_BITS) && Closed(t, LITERAL_BITS)
    requires n % 4 == 0 && InTable(t, states0) && in_.Valid()
    modifies in_
    ensures n == |original| && st0.n >= 63 && old(AtLiteral(freq, original, 0, st0, in_.View(), states0)) ==>
      ok && literals == original && states == [0, 0, 0, 0]
    ensures ok ==> |literals| == n
  {
    hide Pow2, DecoderTable, LiteralsOk, LiteralState, Closed, InTable, Bits.Valid;
    ghost var coded := n == |original| && st0.n >= 63 && AtLiteral(freq, original, 0, st0, in_.View(), states0);
    ok, literals, states := true, [], states0;
    var i := 0;
    while i < n
      invariant 0 <= i <= n && i % 4 == 0 && |literals| == i && InTable(t, states) && in_.Valid()
      invariant coded ==> AtLiteral(freq, original, i, st0, in_.View(), states) && literals == original[..i]
    {
      if coded { LiteralStateValid(freq, original, i, st0); }
      NextGroup(i, n);
      ok := in_.Flush();
      if !ok { return; }
      var a;
      a, states := DecodeFour(t, in_, states, freq, original, i, st0);
      literals := literals + a;
      i := i + 4;
    }
    if coded { LiteralStateEnd(freq, original, st0); }
    ok := true;
  }

  lemma NextGroup(i: nat, n: nat)
    requires i < n && i % 4 == 0 && n % 4 == 0
    ensures i + 4 <= n && (i + 4) % 4 == 0
  {
  }

  /** Every literal sequence over the symbols of a normalized table survives coding and decoding. */
  method LiteralsRoundTrip(freq: seq<nat>, literals: seq<nat>, dst: seq<byte>, room: nat)
    returns (coded: bool, result: seq<nat>)
    requires Normalized(freq, LITERAL_BITS) && LiteralsOk(freq, literals) && |dst| >= 8
    ensures coded ==> result == literals
    ensures |dst| + 2 * |literals| + 16 <= room ==> coded
  {
    hide Pow2, Occurs, LiteralState, LittleEndian, EncoderTable, DecoderTable;
    var enc := new EncoderEntry[|freq|](_ => EncoderEntry(0, 0, 0, 0));
    InitEncoderTable(LITERAL_BITS, freq, enc);
    var dec := new DecoderEntry[Pow2(LITERAL_BITS)](_ => DecoderEntry(0, 0, 0));
    var ok := InitDecoderTable(LITERAL_BITS, freq, dec);
    assert |dec[..]| == Pow2(LITERAL_BITS);
    var buf, nbits, states;
    coded, buf, nbits, states := EncodeLiterals(enc[..], literals, dst, room, freq);
    result := [];
    if coded {
      var final;
      ok, result, final := DecodeLiterals(dec[..], buf, nbits, states, |literals|, freq, literals, dst);
    }
  }
}
