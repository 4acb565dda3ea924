/** The variable-length code for frequency tables in the header of a compressed block. */
module FreqCode {
  import opened Bytes
  import opened BitStream
  import opened Powers
  import opened FseTables

  const MAX_FREQ: nat := 1047

  /** A code word: `width` bits, the low bits telling the width. */
  datatype Code = Code(bits: nat, width: nat)

  /** `lzfse_encode_v1_freq_value`. */
  function Encode(v: nat): (c: Code)
    requires v <= MAX_FREQ
  {
    if v == 0 then Code(0, 2)
    else if v == 1 then Code(2, 2)
    else if v == 2 then Code(1, 3)
    else if v == 3 then Code(5, 3)
    else if v <= 7 then Code(3 + 8 * (v - 4), 5)
    else if v < 24 then Code(7 + 16 * (v - 8), 8)
    else Code(15 + 16 * (v - 24), 14)
  }

  /** `lzfse_decode_v1_freq_value`: the value at the low end of `bits`, and how many bits it takes. */
  function Decode(bits: nat): (r: (nat, nat))
    ensures 2 <= r.1 <= 14
  {
    DecodeLow14(Rem(bits, 16384)) // no more than 14 bits are looked at
  }

  /** The position of the first 0 bit gives the width; the value bits stand above it. */
  function DecodeLow14(low: nat): (r: (nat, nat))
    ensures 2 <= r.1 <= 14
  {
    if low % 2 == 0 then (low / 2 % 2, 2) else
    var a := low / 2;
    if a % 2 == 0 then (2 + a / 2 % 2, 3) else
    var b := a / 2;
    if b % 2 == 0 then (4 + b / 2 % 4, 5) else
    var c := b / 2;
    if c % 2 == 0 then (8 + c / 2 % 16, 8) else (24 + c / 2, 14)
  }

  lemma Widths()
    ensures Pow2(2) == 4 && Pow2(3) == 8 && Pow2(5) == 32 && Pow2(8) == 256 && Pow2(14) == 16384
  {
    assert Pow2(8) == 256;
    Pow2Add(8, 6);
    assert Pow2(6) == 64;
  }

  /** A short code word, of `p` that is two to the power of its width, with anything above it. */
  lemma DecodeShort(v: nat, rest: nat, p: nat)
    requires v <= 7
    requires p == if v <= 1 then 4 else if v <= 3 then 8 else 32
    ensures Encode(v).bits < p && Decode(Encode(v).bits + rest * p) == (v, Encode(v).width)
  {
    var bits := Encode(v).bits;
    hide Quot, Rem, DecodeLow14;
    var q := if v <= 1 then 4096 else if v <= 3 then 2048 else 512;
    LowPart(bits, rest, p, q);
    if v <= 3 {
      SmallCodes(v, Rem(rest, q));
    } else {
      MiddleCodes(v, Rem(rest, q));
    }
  }

  lemma DecodeLong(v: nat, rest: nat, p: nat)
    requires 8 <= v <= MAX_FREQ
    requires p == if v < 24 then 256 else 16384
    ensures Encode(v).bits < p && Decode(Encode(v).bits + rest * p) == (v, Encode(v).width)
  {
    var bits := Encode(v).bits;
    hide Quot, Rem, DecodeLow14;
    var q := if v < 24 then 64 else 1;
    LowPart(bits, rest, p, q);
    LongCodes(v, Rem(rest, q));
  }

  /** The code is a prefix code: whatever follows, the value and its width are recognised. */
  lemma DecodeEncode(v: nat, rest: nat)
    requires v <= MAX_FREQ
    ensures var c := Encode(v); c.bits < Pow2(c.width) && Decode(c.bits + rest * Pow2(c.width)) == (v, c.width)
  {
    Widths();
    var p := Pow2(Encode(v).width);
    hide Pow2, Decode;
    if v <= 7 { DecodeShort(v, rest, p); } else { DecodeLong(v, rest, p); }
  }

  lemma Halve(x: nat, y: nat)
    ensures x == 2 * y ==> x % 2 == 0 && x / 2 == y
    ensures x == 2 * y + 1 ==> x % 2 == 1 && x / 2 == y
  {
  }

  lemma SmallCodes(v: nat, r: nat)
    requires v <= 3
    ensures v <= 1 ==> DecodeLow14(2 * v + r * 4) == (v, 2)
    ensures v >= 2 ==> DecodeLow14(1 + 4 * (v - 2) + r * 8) == (v, 3)
  {
    if v <= 1 {
      Halve(2 * v + r * 4, v + 2 * r);
      Halve(v + 2 * r, r);
    } else {
      var w := v - 2;
      Halve(1 + 4 * w + r * 8, 2 * w + 4 * r);
      Halve(2 * w + 4 * r, w + 2 * r);
      Halve(w + 2 * r, r);
    }
  }

  lemma MiddleCodes(v: nat, r: nat)
    requires 4 <= v <= 7
    ensures DecodeLow14(3 + 8 * (v - 4) + r * 32) == (v, 5)
  {
    var w := v - 4;
    Halve(3 + 8 * w + r * 32, 1 + 4 * w + 16 * r);
    Halve(1 + 4 * w + 16 * r, 2 * w + 8 * r);
    Halve(2 * w + 8 * r, w + 4 * r);
    assert (w + 4 * r) % 4 == w;
  }

  lemma LongCodes(v: nat, r: nat)
    requires 8 <= v <= MAX_FREQ
    ensures v < 24 ==> DecodeLow14(7 + 16 * (v - 8) + r * 256) == (v, 8)
    ensures v >= 24 ==> DecodeLow14(15 + 16 * (v - 24)) == (v, 14)
  {
    if v < 24 {
      var w := v - 8;
      Halve(7 + 16 * w + r * 256, 3 + 8 * w + 128 * r);
      Halve(3 + 8 * w + 128 * r, 1 + 4 * w + 64 * r);
      Halve(1 + 4 * w + 64 * r, 2 * w + 32 * r);
      Halve(2 * w + 32 * r, w + 16 * r);
      assert (w + 16 * r) % 16 == w;
    } else {
      var w := v - 24;
      Halve(15 + 16 * w, 7 + 8 * w);
      Halve(7 + 8 * w, 3 + 4 * w);
      Halve(3 + 4 * w, 1 + 2 * w);
      Halve(1 + 2 * w, w);
    }
  }

  lemma LowPart(lo: nat, hi: nat, p: nat, q: nat)
    requires lo < p && q > 0 && q * p == 16384
    ensures Rem(lo + hi * p, 16384) == lo + Rem(hi, q) * p
  {
    hide Rem, Quot;
    DivModProduct(lo, hi, p, q);
  }

  /** Decoding looks at no more than 14 bits. */
  lemma DecodeLow(a: nat, high: nat)
    ensures Decode(a + high * 16384) == Decode(a)
  {
    hide Rem, Quot;
    QuotRem(a, 16384);
    DivParts(Rem(a, 16384), Quot(a, 16384) + high, 16384);
  }

  ghost predicate InRange(vals: seq<nat>)
  {
    forall i :: 0 <= i < |vals| ==> vals[i] <= MAX_FREQ
  }

  /** The codes of `vals[i..]` as one number, the first code lowest. */
  ghost function Tail(vals: seq<nat>, i: nat): nat
    requires InRange(vals) && i <= |vals|
    decreases |vals| - i
  {
    if i == |vals| then 0
    else Encode(vals[i]).bits + Tail(vals, i + 1) * Pow2(Encode(vals[i]).width)
  }

  ghost function TailBits(vals: seq<nat>, i: nat): nat
    requires InRange(vals) && i <= |vals|
    decreases |vals| - i
  {
    if i == |vals| then 0 else Encode(vals[i]).width + TailBits(vals, i + 1)
  }

  /** The codes of `vals[..i]`. */
  ghost function Prefix(vals: seq<nat>, i: nat): Bits
    requires InRange(vals) && i <= |vals|
  {
    if i == 0 then Bits(0, 0) else Prefix(vals, i - 1).Push(Encode(vals[i - 1]).bits, Encode(vals[i - 1]).width)
  }

  /** Prefix and tail together are always the whole. */
  lemma {:induction false} PrefixTail(vals: seq<nat>, i: nat)
    requires InRange(vals) && i <= |vals|
    ensures var p := Prefix(vals, i);
      Tail(vals, 0) == p.v + Tail(vals, i) * Pow2(p.n) && TailBits(vals, 0) == p.n + TailBits(vals, i)
  {
    if i == 0 {
      assert Pow2(0) == 1;
    } else {
      PrefixTail(vals, i - 1);
      var p, c := Prefix(vals, i - 1), Encode(vals[i - 1]);
      hide Pow2, Encode;
      Pow2Add(c.width, p.n);
      MulDist(c.bits, Tail(vals, i) * Pow2(c.width), Pow2(p.n));
      MulAssoc(Tail(vals, i), Pow2(c.width), Pow2(p.n));
    }
  }

  /** `buf` holds the codes of `vals` and fewer than eight padding bits. */
  ghost predicate Packs(buf: seq<byte>, vals: seq<nat>)
  {
    InRange(vals) && LittleEndian(buf) == Tail(vals, 0) && TailBits(vals, 0) <= 8 * |buf| < TailBits(vals, 0) + 8
  }

  /** Bytes stored and bits accumulated, as one stack. */
  ghost function View(buf: seq<byte>, accum: nat, nbits: nat): Bits
  {
    Bits(LittleEndian(buf) + accum * Pow2(8 * |buf|), 8 * |buf| + nbits)
  }

  lemma AddCode(buf: seq<byte>, accum: nat, nbits: nat, v: nat)
    requires accum < Pow2(nbits) && v <= MAX_FREQ
    ensures var c := Encode(v); var accum' := accum + c.bits * Pow2(nbits);
      accum' < Pow2(nbits + c.width) &&
        View(buf, accum', nbits + c.width) == View(buf, accum, nbits).Push(c.bits, c.width)
  {
    hide Pow2, Encode, LittleEndian;
    var c := Encode(v);
    CodeWidth(v);
    PushValid(Bits(accum, nbits), c.bits, c.width);
    PushTwice(Bits(LittleEndian(buf), 8 * |buf|), accum, nbits, c.bits, c.width);
  }

  /** Stores the full bytes of the accumulator. */
  method StoreBytes(buf0: seq<byte>, accum0: nat, nbits0: nat) returns (buf: seq<byte>, accum: nat, nbits: nat)
    requires accum0 < Pow2(nbits0)
    ensures nbits <= 7 && accum < Pow2(nbits) && View(buf, accum, nbits) == View(buf0, accum0, nbits0)
  {
    hide Pow2, LittleEndian, Quot, LowBytes;
    buf, accum, nbits := buf0, accum0, nbits0;
    while nbits >= 8
      invariant accum < Pow2(nbits) && View(buf, accum, nbits) == View(buf0, accum0, nbits0)
      decreases nbits
    {
      FlushValue(buf, accum, nbits, 1);
      buf := buf + LowBytes(accum, 1);
      accum, nbits := Quot(accum, Pow2(8)), nbits - 8;
    }
  }

  /** `lzfse_encode_v1_freq_table`. */
  method EncodeTable(vals: seq<nat>) returns (buf: seq<byte>)
    requires InRange(vals)
    ensures Packs(buf, vals)
  {
    hide Pow2, Encode, LittleEndian, View, LowBytes, Packs;
    var accum: nat, nbits: nat := 0, 0;
    buf := [];
    assert View([], 0, 0) == Bits(0, 0) by { EmptyView(); }
    for i := 0 to |vals|
      invariant nbits <= 7 && accum < Pow2(nbits) && Prefix(vals, i) == View(buf, accum, nbits)
    {
      var c := Encode(vals[i]);
      AddCode(buf, accum, nbits, vals[i]);
      accum, nbits := accum + c.bits * Pow2(nbits), nbits + c.width;
      buf, accum, nbits := StoreBytes(buf, accum, nbits);
    }
    LastByte(vals, buf, accum, nbits);
    if nbits > 0 {
      buf := buf + LowBytes(accum, 1);
    }
  }

  lemma EmptyView()
    ensures View([], 0, 0) == Bits(0, 0)
  {
  }

  lemma CodeWidth(v: nat)
    requires v <= MAX_FREQ
    ensures Encode(v).bits < Pow2(Encode(v).width) && 2 <= Encode(v).width <= 14
  {
    DecodeEncode(v, 0);
  }

  lemma LastByte(vals: seq<nat>, buf: seq<byte>, accum: nat, nbits: nat)
    requires InRange(vals) && nbits <= 7 && accum < Pow2(nbits) && Prefix(vals, |vals|) == View(buf, accum, nbits)
    ensures Packs(if nbits > 0 then buf + LowBytes(accum, 1) else buf, vals)
  {
    WholePrefix(vals);
    PadByte(buf, accum, nbits);
    hide Pow2, LittleEndian, LowBytes, Prefix, Tail, TailBits, InRange;
  }

  lemma WholePrefix(vals: seq<nat>)
    requires InRange(vals)
    ensures Prefix(vals, |vals|) == Bits(Tail(vals, 0), TailBits(vals, 0))
  {
    PrefixTail(vals, |vals|);
    assert Tail(vals, |vals|) == 0 && TailBits(vals, |vals|) == 0;
    hide Pow2, Prefix;
  }

  lemma PadByte(buf: seq<byte>, accum: nat, nbits: nat)
    requires accum < Pow2(nbits) && nbits <= 7
    ensures LittleEndian(buf + LowBytes(accum, 1)) == LittleEndian(buf) + accum * Pow2(8 * |buf|)
    ensures nbits == 0 ==> accum == 0
  {
    assert nbits == 0 ==> Pow2(nbits) == 1;
    hide Pow2, LittleEndian, Quot, Rem, LowBytes;
    LowBytesValue(accum, 1);
    LittleEndianConcat(buf, LowBytes(accum, 1));
    Pow2Mono(nbits, 8);
    DivParts(accum, 0, Pow2(8));
  }

  /** All bits not yet consumed: the accumulator and the bytes from `pos` on. */
  ghost function Rest(buf: seq<byte>, pos: nat, accum: nat, nbits: nat): nat
    requires pos <= |buf|
  {
    accum + LittleEndian(buf[pos..]) * Pow2(nbits)
  }

  lemma LoadByte(buf: seq<byte>, pos: nat, accum: nat, nbits: nat)
    requires pos < |buf| && accum < Pow2(nbits)
    ensures var accum' := accum + buf[pos] * Pow2(nbits);
      accum' < Pow2(nbits + 8) && Rest(buf, pos + 1, accum', nbits + 8) == Rest(buf, pos, accum, nbits)
  {
    var b, high := buf[pos] as int, LittleEndian(buf[pos + 1..]);
    assert LittleEndian(buf[pos..]) == b + 256 * high by { assert buf[pos..][1..] == buf[pos + 1..]; }
    assert Pow2(8) == 256;
    hide Pow2, LittleEndian;
    PushValid(Bits(accum, nbits), b, 8);
    Pow2Add(8, nbits);
    MulAssoc(high, 256, Pow2(nbits));
    MulDist(b, 256 * high, Pow2(nbits));
  }

  /** Refills the accumulator one byte at a time. */
  method Refill(buf: seq<byte>, pos0: nat, accum0: nat, nbits0: nat) returns (pos: nat, accum: nat, nbits: nat)
    requires pos0 <= |buf| && nbits0 <= 32 && accum0 < Pow2(nbits0)
    ensures pos <= |buf| && nbits <= 32 && accum < Pow2(nbits)
    ensures pos == |buf| || nbits >= 25
    ensures Rest(buf, pos, accum, nbits) == Rest(buf, pos0, accum0, nbits0) && 8 * pos - nbits == 8 * pos0 - nbits0
  {
    hide Pow2, Rest;
    pos, accum, nbits := pos0, accum0, nbits0;
    while pos < |buf| && nbits + 8 <= 32
      invariant pos <= |buf| && nbits <= 32 && accum < Pow2(nbits)
      invariant Rest(buf, pos, accum, nbits) == Rest(buf, pos0, accum0, nbits0) && 8 * pos - nbits == 8 * pos0 - nbits0
      decreases |buf| - pos
    {
      LoadByte(buf, pos, accum, nbits);
      accum, nbits, pos := accum + buf[pos] * Pow2(nbits), nbits + 8, pos + 1;
    }
  }

  /** What is in the accumulator decides the next value. */
  lemma NextValue(buf: seq<byte>, pos: nat, accum: nat, nbits: nat)
    requires pos <= |buf| && (pos == |buf| || nbits >= 14)
    ensures Decode(accum) == Decode(Rest(buf, pos, accum, nbits))
  {
    if pos == |buf| {
      assert buf[pos..] == [];
    } else {
      var high := LittleEndian(buf[pos..]);
      assert Pow2(14) == 16384 by { Widths(); }
      hide Pow2, Decode, LittleEndian;
      Pow2Add(nbits - 14, 14);
      MulAssoc(high, Pow2(nbits - 14), 16384);
      DecodeLow(accum, high * Pow2(nbits - 14));
    }
  }

  /** Dropping the low `w` bits. */
  lemma Consume(buf: seq<byte>, pos: nat, accum: nat, nbits: nat, w: nat)
    requires pos <= |buf| && w <= nbits && accum < Pow2(nbits)
    ensures var accum' := Quot(accum, Pow2(w));
      accum' < Pow2(nbits - w) && Rest(buf, pos, accum', nbits - w) == Quot(Rest(buf, pos, accum, nbits), Pow2(w))
  {
    hide Pow2, Quot, Rem, LittleEndian;
    var high := LittleEndian(buf[pos..]);
    Pow2Add(nbits - w, w);
    MulAssoc(high, Pow2(nbits - w), Pow2(w));
    QuotShift(accum, high * Pow2(nbits - w), Pow2(w));
    QuotRem(accum, Pow2(w));
    if Quot(accum, Pow2(w)) >= Pow2(nbits - w) {
      MulMono(Pow2(nbits - w), Quot(accum, Pow2(w)), Pow2(w));
      assert false;
    }
  }

  /** The next value of a packed table, and what is left after it. */
  lemma TailStep(vals: seq<nat>, i: nat)
    requires InRange(vals) && i < |vals|
    ensures var w := Encode(vals[i]).width;
      && Decode(Tail(vals, i)) == (vals[i], w) && w <= TailBits(vals, i)
      && Quot(Tail(vals, i), Pow2(w)) == Tail(vals, i + 1) && TailBits(vals, i + 1) == TailBits(vals, i) - w
  {
    hide Pow2, Decode, Quot, Rem;
    var c := Encode(vals[i]);
    DecodeEncode(vals[i], Tail(vals, i + 1));
    hide Encode;
    DivParts(c.bits, Tail(vals, i + 1), Pow2(c.width));
  }

  /** The reader stands at the `i`th value of a packed table. */
  ghost predicate At(buf: seq<byte>, vals: seq<nat>, i: nat, pos: nat, accum: nat, nbits: nat)
  {
    && Packs(buf, vals) && i <= |vals| && pos <= |buf|
    && Rest(buf, pos, accum, nbits) == Tail(vals, i)
    && nbits + 8 * (|buf| - pos) == TailBits(vals, i) + (8 * |buf| - TailBits(vals, 0))
  }

  /** The frequency loop of `lzfse_decode_v1`: reads `n` values, which must use up the header exactly. */
  method DecodeTable(buf: seq<byte>, n: nat, ghost vals: seq<nat>) returns (ok: bool, out: seq<nat>)
    ensures Packs(buf, vals) && n == |vals| ==> ok && out == vals
    ensures ok ==> |out| == n
  {
    hide Pow2, Decode, Encode, Quot, Tail, TailBits, Rest, LittleEndian, InRange;
    ghost var packed := Packs(buf, vals) && n == |vals|;
    var pos: nat, accum: nat, nbits: nat := 0, 0, 0;
    StartRest(buf);
    out := [];
    for i := 0 to n
      invariant pos <= |buf| && nbits <= 32 && accum < Pow2(nbits) && |out| == i
      invariant packed ==> At(buf, vals, i, pos, accum, nbits) && out == vals[..i]
    {
      pos, accum, nbits := Refill(buf, pos, accum, nbits);
      var (v, w) := Decode(accum);
      if packed {
        NextValue(buf, pos, accum, nbits);
        TailStep(vals, i);
      }
      if w > nbits {
        return false, out;
      }
      Consume(buf, pos, accum, nbits, w);
      out := out + [v];
      accum, nbits := Quot(accum, Pow2(w)), nbits - w;
    }
    ok := !(nbits >= 8 || pos != |buf|);
    if packed { NoBitsLeft(vals); }
  }

  lemma StartRest(buf: seq<byte>)
    ensures Rest(buf, 0, 0, 0) == LittleEndian(buf) && 0 < Pow2(0)
  {
    assert buf[0..] == buf;
  }

  lemma NoBitsLeft(vals: seq<nat>)
    requires InRange(vals)
    ensures TailBits(vals, |vals|) == 0
  {
  }

  /** Every table of frequencies up to 1047 comes back from its packed form. */
  method TableRoundTrip(vals: seq<nat>) returns (ok: bool, out: seq<nat>)
    requires InRange(vals)
    ensures ok && out == vals
  {
    hide Packs;
    var buf := EncodeTable(vals);
    ok, out := DecodeTable(buf, |vals|, vals);
  }

  /** The longest code has 14 bits, so the packed tables of a block fit the header structure. */
  lemma PackedSize(buf: seq<byte>, vals: seq<nat>)
    requires Packs(buf, vals)
    ensures 8 * |buf| <= 14 * |vals| + 7
  {
    hide LittleEndian, Tail;
    TailBitsBound(vals, 0);
  }

  lemma {:induction false} TailBitsBound(vals: seq<nat>, i: nat)
    requires InRange(vals) && i <= |vals|
    ensures TailBits(vals, i) <= 14 * (|vals| - i)
    decreases |vals| - i
  {
    if i < |vals| { TailBitsBound(vals, i + 1); }
  }
}
