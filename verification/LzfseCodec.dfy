/**
 * A compressed V2 block as bytes: frequency tables chosen from the block's own symbols, packed into
 * the header, and the two FSE payloads; and back.
 */
module LzfseCodec {
  import opened Bytes
  import opened BitStream
  import opened Powers
  import opened FseTables
  import opened Fse
  import opened Lmd
  import opened LzfseBlock
  import opened LzfsePayload
  import opened LzfseHeader
  import FreqCode
  import FseNormalize

  /** The frequency tables of a block. */
  datatype Tables = Tables(fr: Freqs, lit: seq<nat>)

  ghost predicate TablesOk(t: Tables) {
    && |t.fr.l| == Symbols(L) && |t.fr.m| == Symbols(M) && |t.fr.d| == Symbols(D) && |t.lit| == 256
    && Normalized(t.fr.l, StateBits(L)) && Normalized(t.fr.m, StateBits(M)) && Normalized(t.fr.d, StateBits(D))
    && Normalized(t.lit, LITERAL_BITS)
  }

  function AllFreqs(t: Tables): seq<nat> { t.fr.l + t.fr.m + t.fr.d + t.lit }

  // ---------- choosing the tables ----------

  /** An occurrence table. */
  method CountSymbols(syms: seq<nat>, n: nat) returns (t: seq<nat>)
    requires forall i :: 0 <= i < |syms| ==> syms[i] < n
    ensures t == Counts(syms, n) && FseNormalize.Sum(t) == |syms|
  {
    t := seq(n, _ => 0);
    ZeroSum(t, n);
    for i := 0 to |syms|
      invariant t == Counts(syms[..i], n) && FseNormalize.Sum(t) == i
    {
      FseNormalize.OffsetUpdate(t, syms[i], t[syms[i]] + 1, n);
      assert syms[..i + 1] == syms[..i] + [syms[i]];
      t := t[syms[i] := t[syms[i]] + 1];
    }
    assert syms[..|syms|] == syms;
  }

  /** How often each of `n` symbols occurs. */
  ghost function Counts(syms: seq<nat>, n: nat): seq<nat> { seq(n, s requires 0 <= s < n => multiset(syms)[s]) }

  lemma {:induction false} ZeroSum(t: seq<nat>, n: nat)
    requires n <= |t| && forall i :: 0 <= i < |t| ==> t[i] == 0
    ensures Offset(t, n) == 0
  {
    if n > 0 { ZeroSum(t, n - 1); }
  }

  /** The normalised frequencies of some symbols: each of them has states. */
  method Frequencies(syms: seq<nat>, n: nat, bits: nat) returns (freq: seq<nat>)
    requires (forall i :: 0 <= i < |syms| ==> syms[i] < n) && |syms| < 0x1_0000_0000
    requires bits <= 10 && 0 < n <= Pow2(bits)
    ensures |freq| == n && Normalized(freq, bits) && FreqCode.InRange(freq)
    ensures forall i :: 0 <= i < |syms| ==> Occurs(freq, bits, syms[i])
    ensures FseNormalize.NormalizedFrom(bits, Counts(syms, n), freq)
  {
    hide Pow2, Normalized, FseNormalize.Sum, FseNormalize.NormalizedFrom;
    var t := CountSymbols(syms, n);
    var a := new nat[n];
    var _, _, _ := FseNormalize.Normalize(bits, t, a);
    freq := a[..];
    SmallStates(bits);
    if |syms| > 0 {
      forall i | 0 <= i < |syms|
        ensures Occurs(freq, bits, syms[i]) { assert t[syms[i]] > 0 && freq[syms[i]] == a[syms[i]]; }
    }
  }

  lemma SmallStates(bits: nat)
    requires bits <= 10
    ensures Pow2(bits) <= 1024 <= FreqCode.MAX_FREQ
  {
    Pow2Mono(bits, 10);
    assert Pow2(10) == 1024;
  }

  ghost function SymbolsOf(ts: seq<Triple>, kind: Kind): seq<nat> {
    seq(|ts|, i requires 0 <= i < |ts| => SymbolOf(kind, ValueOf(ts[i], kind)))
  }

  /** The symbols counted for one of the three streams. */
  method LookUp(ts: seq<Triple>, kind: Kind) returns (r: seq<nat>)
    requires forall i :: 0 <= i < |ts| ==> ValueOf(ts[i], kind) <= MaxValue(kind)
    ensures r == SymbolsOf(ts, kind)
  {
    hide SymbolOf, TableSymbol;
    r := [];
    for i := 0 to |ts|
      invariant r == SymbolsOf(ts[..i], kind)
    {
      TableFinds(kind, ValueOf(ts[i], kind));
      r := r + [TableSymbol(kind, ValueOf(ts[i], kind))];
      assert ts[..i + 1][..i] == ts[..i];
    }
    assert ts[..|ts|] == ts;
  }

  /** Values the block format can hold. */
  ghost predicate Codable(b: Block) {
    && |b.literals| <= LITERALS_PER_BLOCK && |b.literals| % 4 == 0 && |b.triples| <= MATCHES_PER_BLOCK
    && forall i :: 0 <= i < |b.triples| ==>
         b.triples[i].l <= MaxValue(L) && b.triples[i].m <= MaxValue(M) && b.triples[i].d <= MaxValue(D)
  }

  method ChooseTables(b: Block) returns (t: Tables)
    requires Codable(b)
    ensures TablesOk(t) && TriplesOk(t.fr, b.triples) && LiteralsOk(t.lit, b.literals) && FreqCode.InRange(AllFreqs(t))
    ensures Fitted(t, b)
  {
    hide Normalized, Occurs, FseNormalize.NormalizedFrom, Counts;
    StateCounts();
    hide Pow2;
    var ls := LookUp(b.triples, L);
    var ms := LookUp(b.triples, M);
    var ds := LookUp(b.triples, D);
    var l := Frequencies(ls, Symbols(L), StateBits(L));
    var m := Frequencies(ms, Symbols(M), StateBits(M));
    var d := Frequencies(ds, Symbols(D), StateBits(D));
    var lit := Frequencies(b.literals, 256, LITERAL_BITS);
    t := Tables(Freqs(l, m, d), lit);
    forall i | 0 <= i < |b.triples|
      ensures ValueOk(t.fr, L, b.triples[i].l) && ValueOk(t.fr, M, b.triples[i].m) && ValueOk(t.fr, D, b.triples[i].d)
    {
      assert Occurs(l, StateBits(L), SymbolsOf(b.triples, L)[i]);
      assert Occurs(m, StateBits(M), SymbolsOf(b.triples, M)[i]);
      assert Occurs(d, StateBits(D), SymbolsOf(b.triples, D)[i]);
    }
  }

  /** The tables are those for the symbols of the block. */
  ghost predicate Fitted(t: Tables, b: Block) {
    && FseNormalize.NormalizedFrom(StateBits(L), Counts(SymbolsOf(b.triples, L), Symbols(L)), t.fr.l)
    && FseNormalize.NormalizedFrom(StateBits(M), Counts(SymbolsOf(b.triples, M), Symbols(M)), t.fr.m)
    && FseNormalize.NormalizedFrom(StateBits(D), Counts(SymbolsOf(b.triples, D), Symbols(D)), t.fr.d)
    && FseNormalize.NormalizedFrom(LITERAL_BITS, Counts(b.literals, 256), t.lit)
  }

  lemma StateCounts()
    ensures Symbols(L) <= Pow2(StateBits(L)) && Symbols(M) <= Pow2(StateBits(M)) && Symbols(D) <= Pow2(StateBits(D))
    ensures 256 <= Pow2(LITERAL_BITS) == 1024
  {
    assert Pow2(6) == 64 && Pow2(8) == 256 && Pow2(10) == 1024;
  }

  // ---------- writing a block ----------

  /** The literal payload after `dst`. */
  method CodeLiterals(freq: seq<nat>, literals: seq<byte>, dst: seq<byte>, room: nat)
    returns (ok: bool, b: seq<byte>, nbits: int, states: seq<nat>)
    requires Normalized(freq, LITERAL_BITS) && LiteralsOk(freq, literals) && |dst| <= room
    ensures |dst| + 2 * |literals| + 16 <= room ==> ok
    ensures ok ==> -7 <= nbits <= 0 && LiteralBytes(freq, literals, b, nbits, states)
    ensures ok ==> |b| <= 2 * |literals| + 1 && |dst| + |b| <= room
    ensures ok ==> |states| == 4 && forall i :: 0 <= i < 4 ==> states[i] < Pow2(10)
  {
    hide Pow2, EncoderTable, LiteralsOk, LiteralState, LittleEndian;
    var enc := new EncoderEntry[|freq|](_ => EncoderEntry(0, 0, 0, 0));
    InitEncoderTable(LITERAL_BITS, freq, enc);
    var buf;
    ok, buf, nbits, states := EncodeLiterals(enc[..], literals, dst, room, freq);
    b := [];
    if ok {
      b := buf[|dst|..];
      assert buf == dst + b;
      LiteralsAnywhere(freq, literals, dst, b, nbits, states);
    }
  }

  /** The L, M, D payload after `dst`, with its eight padding bytes. */
  method CodeTriples(fr: Freqs, ts: seq<Triple>, dst: seq<byte>, room: nat)
    returns (ok: bool, b: seq<byte>, nbits: int, states: seq<nat>)
    requires |fr.l| == Symbols(L) && |fr.m| == Symbols(M) && |fr.d| == Symbols(D)
    requires Normalized(fr.l, StateBits(L)) && Normalized(fr.m, StateBits(M)) && Normalized(fr.d, StateBits(D))
    requires TriplesOk(fr, ts)
    ensures |dst| + 8 * |ts| + 24 <= room ==> ok
    ensures ok ==> -7 <= nbits <= 0 && LmdPayload(fr, ts, Padding(), b, nbits, states)
    ensures ok ==> |b| <= 8 * |ts| + 9 && |dst| + |b| <= room
  {
    hide Pow2, EncoderTable, TriplesOk, LmdState, LittleEndian, Padding;
    var el := new EncoderEntry[|fr.l|](_ => EncoderEntry(0, 0, 0, 0));
    InitEncoderTable(StateBits(L), fr.l, el);
    var em := new EncoderEntry[|fr.m|](_ => EncoderEntry(0, 0, 0, 0));
    InitEncoderTable(StateBits(M), fr.m, em);
    var ed := new EncoderEntry[|fr.d|](_ => EncoderEntry(0, 0, 0, 0));
    InitEncoderTable(StateBits(D), fr.d, ed);
    var buf;
    ok, buf, nbits, states := EncodeTriples(EncoderTables(el[..], em[..], ed[..]), ts, dst, room, fr);
    b := [];
    if ok {
      b := buf[|dst|..];
      ghost var payload := b[8..];
      assert b == Padding() + payload && buf == (dst + Padding()) + payload;
      LmdAnywhere(fr, ts, dst + Padding(), payload, nbits, states);
      LmdAnywhere(fr, ts, Padding(), payload, nbits, states);
    }
  }

  /** Everything a block is made of. */
  datatype Parts = Parts(
    tables: Tables, freqBytes: seq<byte>,
    litBytes: seq<byte>, litBits: int, litStates: seq<nat>,
    lmdBytes: seq<byte>, lmdBits: int, lmdStates: seq<nat>)

  function HeaderOf(p: Parts, b: Block): Header {
    Header(End(0, b.triples), |b.literals|, |p.litBytes|, |b.triples|, p.litBits, p.litStates,
           |p.lmdBytes|, p.lmdBits, p.lmdStates, FIXED_SIZE + |p.freqBytes|)
  }

  ghost predicate PartsOk(p: Parts, b: Block) {
    && TablesOk(p.tables) && FreqCode.Packs(p.freqBytes, AllFreqs(p.tables)) && HeaderOk(HeaderOf(p, b))
    && |b.literals| <= LITERALS_PER_BLOCK && |b.literals| % 4 == 0 && |b.triples| <= MATCHES_PER_BLOCK
    && LiteralBytes(p.tables.lit, b.literals, p.litBytes, p.litBits, p.litStates)
    && LmdPayload(p.tables.fr, b.triples, Padding(), p.lmdBytes, p.lmdBits, p.lmdStates)
  }

  ghost function Assemble(p: Parts, b: Block): seq<byte>
    requires HeaderOk(HeaderOf(p, b))
  {
    WordSizes();
    HeaderBytes(HeaderOf(p, b)) + (p.freqBytes + (p.litBytes + p.lmdBytes))
  }

  /** `s` is a V2 block that stands for `b`. */
  ghost predicate V2Bytes(s: seq<byte>, b: Block) {
    exists p: Parts :: PartsOk(p, b) && s == Assemble(p, b)
  }

  /** And its tables are those for its symbols. */
  ghost predicate FittedBytes(s: seq<byte>, b: Block) {
    exists p: Parts :: PartsOk(p, b) && s == Assemble(p, b) && Fitted(p.tables, b)
  }

  lemma {:induction false} RawBound(ts: seq<Triple>, p: nat)
    requires forall i :: 0 <= i < |ts| ==> ts[i].l <= MaxValue(L) && ts[i].m <= MaxValue(M)
    ensures End(p, ts) <= p + 2674 * |ts|
    decreases |ts|
  {
    if ts != [] {
      assert forall i :: 0 <= i < |ts| - 1 ==> ts[1..][i] == ts[i + 1];
      RawBound(ts[1..], p + ts[0].l + ts[0].m);
    }
  }

  lemma HeaderFits(p: Parts, b: Block)
    requires Codable(b) && TablesOk(p.tables) && FreqCode.Packs(p.freqBytes, AllFreqs(p.tables))
    requires |p.litBytes| <= 2 * |b.literals| + 1 && |p.lmdBytes| <= 8 * |b.triples| + 9
    requires -7 <= p.litBits <= 0 && -7 <= p.lmdBits <= 0
    requires |p.litStates| == 4 && forall i :: 0 <= i < 4 ==> p.litStates[i] < Pow2(10)
    requires LmdPayload(p.tables.fr, b.triples, Padding(), p.lmdBytes, p.lmdBits, p.lmdStates)
    ensures HeaderOk(HeaderOf(p, b)) && |p.freqBytes| + FIXED_SIZE <= FULL_SIZE
  {
    hide Pow2, LmdPayload, TablesOk, FreqCode.Packs, AllFreqs, End;
    RawBound(b.triples, 0);
    FreqCode.PackedSize(p.freqBytes, AllFreqs(p.tables));
    FreqCount(p.tables);
    LmdStates(p.tables.fr, b.triples, p.lmdBytes, p.lmdBits, p.lmdStates);
    HeaderWidths();
  }

  lemma FreqCount(t: Tables)
    requires TablesOk(t)
    ensures |AllFreqs(t)| == 360
  {
  }

  lemma HeaderWidths()
    ensures Pow2(20) == 0x10_0000 && Pow2(32) == 0x1_0000_0000
  {
    assert Pow2(10) == 1024;
    Pow2Add(10, 10);
    WordSizes();
  }

  lemma LmdStates(fr: Freqs, ts: seq<Triple>, b: seq<byte>, nbits: int, states: seq<nat>)
    requires LmdPayload(fr, ts, Padding(), b, nbits, states)
    ensures |states| == 3 && forall i :: 0 <= i < 3 ==> states[i] < Pow2(10)
  {
    ItemsAreOk(fr, ts);
    assert Pow2(6) == 64 && Pow2(8) == 256 && Pow2(10) == 1024;
    hide Pow2, LittleEndian, EncodeItems, TriplesOk, ItemsOk;
    assert StatesOk(Coders(fr), states);
  }

  /** `lzfse_encode_matches`, from the occurrence tables on: the block after `dst`, if it fits `room`. */
  method EncodeBlock(b: Block, dst: seq<byte>, room: nat) returns (ok: bool, bytes: seq<byte>)
    requires Codable(b)
    ensures ok ==> V2Bytes(bytes, b) && FittedBytes(bytes, b) && |dst| + |bytes| <= room
    ensures |dst| + FULL_SIZE + 2 * |b.literals| + 8 * |b.triples| + 25 <= room ==> ok
    ensures |bytes| <= FULL_SIZE + 2 * |b.literals| + 8 * |b.triples| + 10
  {
    hide Fitted, FittedBytes;
    hide Pow2, TriplesOk, LiteralsOk, FreqCode.InRange, FreqCode.Packs, LiteralBytes, LmdPayload, V2Bytes, Codable,
      AllFreqs, HeaderBytes, End;
    hide TablesOk, Normalized;
    ok, bytes := false, [];
    if |dst| + FULL_SIZE > room {
      return;
    }
    var t := ChooseTables(b);
    TableShape(t);
    var freqBytes := FreqCode.EncodeTable(AllFreqs(t));
    FreqCount(t);
    FreqCode.PackedSize(freqBytes, AllFreqs(t));
    // The fixed part is filled in at the end.
    var at := dst + seq(FIXED_SIZE, _ => 0) + freqBytes;
    var done, litBytes, litBits, litStates := CodeLiterals(t.lit, b.literals, at, room);
    if !done {
      return;
    }
    var lmdBytes, lmdBits, lmdStates;
    done, lmdBytes, lmdBits, lmdStates := CodeTriples(t.fr, b.triples, at + litBytes, room);
    if !done {
      return;
    }
    var p := Parts(t, freqBytes, litBytes, litBits, litStates, lmdBytes, lmdBits, lmdStates);
    HeaderFits(p, b);
    Assembled(p, b);
    FittedAssembled(p, b);
    HeaderShape(HeaderOf(p, b));
    ok, bytes := true, HeaderBytes(HeaderOf(p, b)) + (freqBytes + (litBytes + lmdBytes));
  }

  lemma TableShape(t: Tables)
    requires TablesOk(t)
    ensures |t.fr.l| == Symbols(L) && |t.fr.m| == Symbols(M) && |t.fr.d| == Symbols(D) && |t.lit| == 256
    ensures Normalized(t.fr.l, StateBits(L)) && Normalized(t.fr.m, StateBits(M)) && Normalized(t.fr.d, StateBits(D))
    ensures Normalized(t.lit, LITERAL_BITS)
  {
  }

  lemma Assembled(p: Parts, b: Block)
    requires TablesOk(p.tables) && FreqCode.Packs(p.freqBytes, AllFreqs(p.tables)) && HeaderOk(HeaderOf(p, b)) &&
      Codable(b)
    requires LiteralBytes(p.tables.lit, b.literals, p.litBytes, p.litBits, p.litStates)
    requires LmdPayload(p.tables.fr, b.triples, Padding(), p.lmdBytes, p.lmdBits, p.lmdStates)
    ensures V2Bytes(Assemble(p, b), b)
  {
    hide HeaderOk, TablesOk, FreqCode.Packs, LiteralBytes, LmdPayload, Assemble;
    assert PartsOk(p, b);
  }

  lemma FittedAssembled(p: Parts, b: Block)
    requires TablesOk(p.tables) && FreqCode.Packs(p.freqBytes, AllFreqs(p.tables)) && HeaderOk(HeaderOf(p, b)) &&
      Codable(b)
    requires LiteralBytes(p.tables.lit, b.literals, p.litBytes, p.litBits, p.litStates)
    requires LmdPayload(p.tables.fr, b.triples, Padding(), p.lmdBytes, p.lmdBits, p.lmdStates) && Fitted(p.tables, b)
    ensures FittedBytes(Assemble(p, b), b)
  {
    hide HeaderOk, TablesOk, FreqCode.Packs, LiteralBytes, LmdPayload, Assemble, Fitted;
    assert PartsOk(p, b);
  }

  lemma HeaderShape(h: Header)
    requires HeaderOk(h)
    ensures h.literalBits >= -7 && h.lmdBits >= -7 && |h.literalStates| == 4 && |h.lmdStates| == 3 &&
      h.raw < 0x1_0000_0000
  {
    WordSizes();
  }

  // ---------- reading a block ----------

  /** The sum of a table. */
  method Total(freq: seq<nat>) returns (n: nat)
    ensures n == Offset(freq, |freq|)
  {
    n := 0;
    for i := 0 to |freq|
      invariant n == Offset(freq, i)
    {
      n := n + freq[i];
    }
  }

  /** The four tables out of the 360 values, and whether they fill their states. */
  method SplitTables(vals: seq<nat>) returns (ok: bool, t: Tables)
    requires |vals| == 360
    ensures AllFreqs(t) == vals && (ok <==> TablesOk(t)) && |t.fr.l| == 20 && |t.fr.m| == 20 && |t.fr.d| == 64
  {
    t := Tables(Freqs(vals[..20], vals[20..40], vals[40..104]), vals[104..]);
    assert AllFreqs(t) == vals;
    var l := Total(t.fr.l);
    var m := Total(t.fr.m);
    var d := Total(t.fr.d);
    var lit := Total(t.lit);
    StatesExact();
    hide Pow2, Offset;
    ok := l == 64 && m == 64 && d == 256 && lit == 1024;
  }

  lemma StatesExact()
    ensures Pow2(StateBits(L)) == 64 && Pow2(StateBits(M)) == 64 && Pow2(StateBits(D)) == 256 &&
      Pow2(LITERAL_BITS) == 1024
  {
    assert Pow2(6) == 64 && Pow2(8) == 256 && Pow2(10) == 1024;
  }

  lemma SameTables(t: Tables, u: Tables)
    requires AllFreqs(t) == AllFreqs(u) && TablesOk(u)
    requires |t.fr.l| == 20 && |t.fr.m| == 20 && |t.fr.d| == 64
    ensures t == u
  {
    var a, b := AllFreqs(t), AllFreqs(u);
    assert t.fr.l == a[..20] && t.fr.m == a[20..40] && t.fr.d == a[40..104] && t.lit == a[104..];
    assert u.fr.l == b[..20] && u.fr.m == b[20..40] && u.fr.d == b[40..104] && u.lit == b[104..];
  }

  /** The tables from the header; `p` are the parts they were written from. */
  method ReadTables(freqBytes: seq<byte>, ghost u: Tables) returns (ok: bool, t: Tables)
    ensures ok ==> TablesOk(t)
    ensures TablesOk(u) && FreqCode.Packs(freqBytes, AllFreqs(u)) ==> ok && t == u
  {
    hide FreqCode.Packs, TablesOk, Normalized, AllFreqs;
    var vals;
    ghost var good := TablesOk(u) && FreqCode.Packs(freqBytes, AllFreqs(u));
    if good { FreqCount(u); }
    ok, vals := FreqCode.DecodeTable(freqBytes, 360, AllFreqs(u));
    t := Tables(Freqs([], [], []), []);
    if ok {
      ok, t := SplitTables(vals);
      if good { SameTables(t, u); }
    }
  }

  /** The literals, whose payload ends `buf`; bits are read back from its end. */
  method ReadLiterals(freq: seq<nat>, buf: seq<byte>, nbits: int, states: seq<nat>, n: nat,
                      ghost literals: seq<byte>, ghost pre: seq<byte>, ghost b: seq<byte>)
    returns (ok: bool, r: seq<byte>)
    requires Normalized(freq, LITERAL_BITS) && -7 <= nbits <= 0 && n % 4 == 0
    requires |states| == 4 && forall i :: 0 <= i < 4 ==> states[i] < 1024
    ensures LiteralBytes(freq, literals, b, nbits, states) && buf == pre + b && |pre| >= 8 && n == |literals| ==>
      ok && r == literals
    ensures ok ==> |r| == n
  {
    hide Pow2, DecoderTable, LiteralState, LittleEndian, LiteralBytes, LiteralPayload;
    StatesExact();
    var dec := new DecoderEntry[Pow2(LITERAL_BITS)](_ => DecoderEntry(0, 0, 0));
    ok := InitDecoderTable(LITERAL_BITS, freq, dec);
    assert |dec[..]| == 1024;
    LiteralsAnywhere(freq, literals, pre, b, nbits, states);
    var lits, final;
    ok, lits, final := DecodeLiterals(dec[..], buf, nbits, states, n, freq, literals, pre);
    r := seq(|lits|, i requires 0 <= i < |lits| => lits[i] % 256);
  }

  /** The L, M, D values, whose payload is `buf`. */
  method ReadValues(fr: Freqs, buf: seq<byte>, nbits: int, states: seq<nat>, n: nat, ghost ts: seq<Triple>)
    returns (ok: bool, r: seq<Triple>)
    requires |fr.l| == Symbols(L) && |fr.m| == Symbols(M) && |fr.d| == Symbols(D) && -7 <= nbits <= 0
    requires Normalized(fr.l, StateBits(L)) && Normalized(fr.m, StateBits(M)) && Normalized(fr.d, StateBits(D))
    requires |states| == 3 && states[0] < 64 && states[1] < 64 && states[2] < 256
    ensures LmdPayload(fr, ts, Padding(), buf, nbits, states) && n == |ts| ==> ok && r == ts
  {
    hide Pow2, LmdPayload, Normalized, DecodersOk;
    var v, p := InitDecoders(fr);
    TableSizes(v, p, fr);
    var final;
    ok, r, final := DecodeTriples(v, buf, nbits, states, n, p, fr, ts, Padding());
  }

  lemma TableSizes(v: DecoderTables, p: PlainTables, fr: Freqs)
    requires DecodersOk(v, p, fr)
    ensures |v.l| == 64 && |v.m| == 64 && |v.d| == 256
  {
    StatesExact();
    hide Pow2;
  }

  /** `lzfse_check_block_header_v1`, apart from the tables. */
  predicate CheckHeader(h: Header)
    requires |h.literalStates| == 4 && |h.lmdStates| == 3
  {
    && h.literals <= LITERALS_PER_BLOCK && h.literals % 4 == 0 && h.matches <= MATCHES_PER_BLOCK
    && h.literalStates[0] < 1024 && h.literalStates[1] < 1024 && h.literalStates[2] < 1024 && h.literalStates[3] < 1024
    && h.lmdStates[0] < 64 && h.lmdStates[1] < 64 && h.lmdStates[2] < 256
    && -7 <= h.literalBits <= 0 && -7 <= h.lmdBits <= 0
  }

  /** Where the parts of a block are in the source. */
  ghost predicate LaidOut(src: seq<byte>, s: nat, e: nat, b: Block, p: Parts) {
    && s + FIXED_SIZE <= |src| && PartsOk(p, b)
    && var h := ReadHeader(src[s..]);
       && h == HeaderOf(p, b) && h.size >= FIXED_SIZE && e == s + h.size + h.literalBytes + h.lmdBytes <= |src|
       && src[s + FIXED_SIZE..s + h.size] == p.freqBytes
       && src[..s + h.size + h.literalBytes] == src[..s + h.size] + p.litBytes
       && src[s + h.size + h.literalBytes..e] == p.lmdBytes
  }

  lemma BlockAt(src: seq<byte>, s: nat, e: nat, b: Block) returns (p: Parts)
    requires s <= e <= |src| && V2Bytes(src[s..e], b)
    ensures LaidOut(src, s, e, b, p)
  {
    hide HeaderOk, TablesOk, FreqCode.Packs, LiteralBytes, LmdPayload, ReadHeader, HeaderBytes, End;
    p :| PartsOk(p, b) && src[s..e] == Assemble(p, b);
    var h := HeaderOf(p, b);
    HeaderShape(h);
    var f, lit, lmd := p.freqBytes, p.litBytes, p.lmdBytes;
    HeaderBack(h, f + (lit + lmd) + src[e..]);
    assert src[s..] == src[s..e] + src[e..] == HeaderBytes(h) + (f + (lit + lmd) + src[e..]);
    Slices(src, s, e, HeaderBytes(h), f, lit, lmd);
  }

  lemma Slices(src: seq<byte>, s: nat, e: nat, h: seq<byte>, f: seq<byte>, lit: seq<byte>, lmd: seq<byte>)
    requires s <= e <= |src| && src[s..e] == h + (f + (lit + lmd))
    ensures e == s + |h| + |f| + |lit| + |lmd|
    ensures src[s + |h|..s + |h| + |f|] == f && src[s + |h| + |f| + |lit|..e] == lmd
    ensures src[..s + |h| + |f| + |lit|] == src[..s + |h| + |f|] + lit
  {
    var t, x, y := src[s..e], |h|, |h| + |f|;
    var z := y + |lit|;
    assert |t| == e - s == z + |lmd|;
    Joined(h, f, lit + lmd);
    Joined(h + f, lit, lmd);
    assert t == (h + f) + (lit + lmd);
    SubSlice(src, s, e, x, y);
    SubSlice(src, s, e, y, z);
    SubSlice(src, s, e, z, |t|);
  }

  lemma Joined(a: seq<byte>, b: seq<byte>, c: seq<byte>)
    ensures (a + (b + c))[|a|..|a| + |b|] == b && (a + (b + c))[|a| + |b|..|a| + |b| + |c|] == c
  {
  }

  lemma SubSlice(s: seq<byte>, a: nat, b: nat, i: nat, j: nat)
    requires a <= b <= |s| && i <= j <= b - a
    ensures s[a..b][i..j] == s[a + i..a + j]
  {
    var t := s[a..b];
    assert forall k :: i <= k < j ==> t[k] == s[a + k];
    assert forall k :: 0 <= k < j - i ==> t[i..j][k] == t[i + k] == s[a + i..a + j][k];
  }

  /** A written header passes the checks. */
  lemma HeaderChecks(p: Parts, b: Block)
    requires PartsOk(p, b)
    ensures var h := HeaderOf(p, b);
      |h.literalStates| == 4 && |h.lmdStates| == 3 && CheckHeader(h)
  {
    hide FreqCode.Packs, LittleEndian, EncodeItems, Pow2, LiteralState, LmdState;
    StatesExact();
    LiteralRange(p.tables.lit, b.literals, p.litBytes, p.litBits, p.litStates);
    LmdRange(p.tables.fr, b.triples, p.lmdBytes, p.lmdBits, p.lmdStates);
  }

  lemma LiteralRange(freq: seq<nat>, literals: seq<nat>, b: seq<byte>, nbits: int, states: seq<nat>)
    requires LiteralBytes(freq, literals, b, nbits, states)
    ensures |states| == 4 && forall i :: 0 <= i < 4 ==> states[i] < 1024
  {
    hide Pow2;
    StatesExact();
  }

  lemma LmdRange(fr: Freqs, ts: seq<Triple>, b: seq<byte>, nbits: int, states: seq<nat>)
    requires LmdPayload(fr, ts, Padding(), b, nbits, states)
    ensures |states| == 3 && states[0] < 64 && states[1] < 64 && states[2] < 256
  {
    hide Pow2, LittleEndian, EncodeItems, TriplesOk, ItemsOk;
    ItemsAreOk(fr, ts);
    StatesExact();
    assert StatesOk(Coders(fr), states);
  }

  /** A V2 block at `s`: its triples, its literals, and where it ends. */
  method DecodeBlock(src: seq<byte>, s: nat, ghost e: nat, ghost b: Block) returns (status: Status, r: Block, end: nat)
    requires s <= |src|
    ensures status == Ok ==> s < end <= |src| && |r.literals| <= LITERALS_PER_BLOCK
    ensures s <= e <= |src| && V2Bytes(src[s..e], b) ==> status == Ok && r == b && end == e
  {
    hide V2Bytes, PartsOk, HeaderOf, ReadHeader, TablesOk, FreqCode.Packs, LiteralBytes, LmdPayload, Normalized;
    r, end, status := Block([], []), s, SrcEmpty;
    ghost var good, p := s <= e <= |src| && V2Bytes(src[s..e], b),
      Parts(Tables(Freqs([], [], []), []), [], [], 0, [], [], 0, []);
    if good {
      p := BlockAt(src, s, e, b);
      PartsOf(p, b);
    }
    if s + FIXED_SIZE > |src| {
      return;
    }
    var h := ReadHeader(src[s..]);
    HeaderLists(src[s..]);
    if s + h.size > |src| {
      return;
    }
    if h.size < FIXED_SIZE {
      return Error, r, s;
    }
    var ok, t := ReadTables(src[s + FIXED_SIZE..s + h.size], p.tables);
    if !ok {
      return Error, r, s;
    }
    end := s + h.size + h.literalBytes + h.lmdBytes;
    if end > |src| {
      return SrcEmpty, r, s;
    }
    if !CheckHeader(h) {
      return Error, r, s;
    }
    TableShape(t);
    var lits, ts;
    var a := s + h.size;
    ok, lits := ReadLiterals(t.lit, src[..a + h.literalBytes],
      h.literalBits, h.literalStates, h.literals, b.literals, src[..a], p.litBytes);
    if !ok {
      return Error, r, s;
    }
    ok, ts := ReadValues(t.fr, src[a + h.literalBytes..end], h.lmdBits, h.lmdStates, h.matches, b.triples);
    if !ok {
      return Error, r, s;
    }
    return Ok, Block(ts, lits), end;
  }

  lemma HeaderLists(s: seq<byte>)
    requires |s| >= FIXED_SIZE
    ensures |ReadHeader(s).literalStates| == 4 && |ReadHeader(s).lmdStates| == 3
  {
    hide GetField, LittleEndian;
  }

  lemma PartsOf(p: Parts, b: Block)
    requires PartsOk(p, b)
    ensures TablesOk(p.tables) && FreqCode.Packs(p.freqBytes, AllFreqs(p.tables))
    ensures var h := HeaderOf(p, b);
      && |h.literalStates| == 4 && |h.lmdStates| == 3 && CheckHeader(h) && h.literals == |b.literals| &&
        h.matches == |b.triples|
      && LiteralBytes(p.tables.lit, b.literals, p.litBytes, h.literalBits, h.literalStates)
      && LmdPayload(p.tables.fr, b.triples, Padding(), p.lmdBytes, h.lmdBits, h.lmdStates)
  {
    hide FreqCode.Packs, LiteralBytes, LmdPayload, TablesOk;
    HeaderChecks(p, b);
  }

  /** A V2 block starts with its magic. */
  lemma V2Magic(bytes: seq<byte>, b: Block, rest: seq<byte>)
    requires V2Bytes(bytes, b)
    ensures |bytes| >= FIXED_SIZE && Load4(bytes + rest, 0) == V2_MAGIC
  {
    hide HeaderOk, TablesOk, FreqCode.Packs, LiteralBytes, LmdPayload, ReadHeader, HeaderBytes, Load4, End;
    var p: Parts :| PartsOk(p, b) && bytes == Assemble(p, b);
    var h, tail := HeaderOf(p, b), p.freqBytes + (p.litBytes + p.lmdBytes);
    HeaderShape(h);
    HeaderBack(h, tail + rest);
    assert bytes + rest == HeaderBytes(h) + (tail + rest);
  }
}
