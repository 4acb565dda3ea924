/** The fixed part of a V2 block header: block sizes and FSE states packed into three 64-bit words. */
module LzfseHeader {
  import opened Bytes
  import opened BitStream
  import opened Powers

  const V2_MAGIC: nat := 0x32787662
  // The fixed part, and the whole structure with room for every frequency table.
  const FIXED_SIZE: nat := 32
  const FULL_SIZE: nat := 752

  // ---------- fields of a word ----------

  /** The word with the fields from the lowest bit on; `setField` puts each at its offset. */
  function Pack(fs: seq<Field>): nat {
    if fs == [] then 0 else fs[0].bits + Pack(fs[1..]) * Pow2(fs[0].width)
  }

  function Start(fs: seq<Field>, i: nat): nat
    requires i <= |fs|
  {
    if i == 0 then 0 else fs[0].width + Start(fs[1..], i - 1)
  }

  ghost predicate AllFit(fs: seq<Field>) { forall i :: 0 <= i < |fs| ==> fs[i].bits < Pow2(fs[i].width) }

  /** `get_field`. */
  function GetField(v: nat, offset: nat, width: nat): nat { Rem(Quot(v, Pow2(offset)), Pow2(width)) }

  lemma {:induction false} GetPacked(fs: seq<Field>, i: nat)
    requires AllFit(fs) && i < |fs|
    ensures GetField(Pack(fs), Start(fs, i), fs[i].width) == fs[i].bits
  {
    var w, hi := fs[0].width, Pack(fs[1..]);
    assert Pow2(0) == 1;
    if i == 0 {
      hide Pow2, Quot, Rem;
      DivParts(0, Pack(fs), 1);
      DivParts(fs[0].bits, hi, Pow2(w));
    } else {
      GetPacked(fs[1..], i - 1);
      hide Pow2, Quot, Rem;
      Pow2Add(Start(fs[1..], i - 1), w);
      DivModProduct(fs[0].bits, hi, Pow2(w), Pow2(Start(fs[1..], i - 1)));
    }
  }

  lemma {:induction false} PackBound(fs: seq<Field>)
    requires AllFit(fs)
    ensures Pack(fs) < Pow2(Start(fs, |fs|))
  {
    if fs == [] {
      assert Pow2(0) == 1;
    } else {
      PackBound(fs[1..]);
      hide Pow2;
      PushValid(Bits(fs[0].bits, fs[0].width), Pack(fs[1..]), Start(fs[1..], |fs| - 1));
    }
  }

  /** A word stored in eight bytes. */
  lemma WordBack(v: nat, pre: seq<byte>, rest: seq<byte>)
    requires v < Pow2(64)
    ensures var s := pre + LowBytes(v, 8) + rest; LittleEndian(s[|pre|..|pre| + 8]) == v
  {
    hide LowBytes, LittleEndian, Pow2, Rem, Quot;
    var s := pre + LowBytes(v, 8) + rest;
    assert s[|pre|..|pre| + 8] == LowBytes(v, 8);
    LowBytesValue(v, 8);
    DivParts(v, 0, Pow2(64));
  }

  // ---------- the header ----------

  datatype Header = Header(
    raw: nat, literals: nat, literalBytes: nat, matches: nat, literalBits: int, literalStates: seq<nat>,
    lmdBytes: nat, lmdBits: int, lmdStates: seq<nat>, size: nat)

  ghost predicate HeaderOk(h: Header) {
    && h.raw < Pow2(32) && h.literals < Pow2(20) && h.literalBytes < Pow2(20) && h.matches < Pow2(20) &&
      -7 <= h.literalBits <= 0
    && |h.literalStates| == 4 && (forall i :: 0 <= i < 4 ==> h.literalStates[i] < Pow2(10))
    && h.lmdBytes < Pow2(20) && -7 <= h.lmdBits <= 0
    && |h.lmdStates| == 3 && (forall i :: 0 <= i < 3 ==> h.lmdStates[i] < Pow2(10)) && h.size < Pow2(32)
  }

  function Word0(h: Header): seq<Field>
    requires h.literalBits >= -7
  {
    [Field(h.literals, 20), Field(h.literalBytes, 20), Field(h.matches, 20), Field(7 + h.literalBits, 3)]
  }

  function Word1(h: Header): seq<Field>
    requires |h.literalStates| == 4 && h.lmdBits >= -7
  {
    [Field(h.literalStates[0], 10), Field(h.literalStates[1], 10), Field(h.literalStates[2], 10),
      Field(h.literalStates[3], 10),
     Field(h.lmdBytes, 20), Field(7 + h.lmdBits, 3)]
  }

  function Word2(h: Header): seq<Field>
    requires |h.lmdStates| == 3
  {
    [Field(h.size, 32), Field(h.lmdStates[0], 10), Field(h.lmdStates[1], 10), Field(h.lmdStates[2], 10)]
  }

  /** `lzfse_encode_v1_state`, in front of the frequency tables. */
  function HeaderBytes(h: Header): (b: seq<byte>)
    requires h.literalBits >= -7 && h.lmdBits >= -7 && |h.literalStates| == 4 && |h.lmdStates| == 3 &&
      h.raw < 0x1_0000_0000
    ensures |b| == FIXED_SIZE
  {
    Store4(V2_MAGIC) + Store4(h.raw) + LowBytes(Pack(Word0(h)), 8) + LowBytes(Pack(Word1(h)), 8) +
      LowBytes(Pack(Word2(h)), 8)
  }

  /** The fields `lzfse_decode_v1` reads. */
  function ReadHeader(s: seq<byte>): Header
    requires |s| >= FIXED_SIZE
  {
    var v0, v1, v2 := LittleEndian(s[8..16]), LittleEndian(s[16..24]), LittleEndian(s[24..32]);
    Header(Load4(s, 4), GetField(v0, 0, 20), GetField(v0, 20, 20), GetField(v0, 40, 20), GetField(v0, 60, 3) - 7,
           [GetField(v1, 0, 10), GetField(v1, 10, 10), GetField(v1, 20, 10), GetField(v1, 30, 10)],
           GetField(v1, 40, 20), GetField(v1, 60, 3) - 7,
           [GetField(v2, 32, 10), GetField(v2, 42, 10), GetField(v2, 52, 10)], GetField(v2, 0, 32))
  }

  lemma ThreeBits()
    ensures Pow2(3) == 8
  {
  }

  lemma Word0Fits(h: Header)
    requires HeaderOk(h)
    ensures AllFit(Word0(h)) && Pack(Word0(h)) < Pow2(64)
    ensures var v := Pack(Word0(h));
      GetField(v, 0, 20) == h.literals && GetField(v, 20, 20) == h.literalBytes && GetField(v, 40, 20) == h.matches
      && GetField(v, 60, 3) == 7 + h.literalBits
  {
    hide Pow2, Pack, GetField, Start;
    ThreeBits();
    var fs := Word0(h);
    StartFour(fs);
    PackBound(fs);
    Pow2Mono(63, 64);
    GetPacked(fs, 0);
    GetPacked(fs, 1);
    GetPacked(fs, 2);
    GetPacked(fs, 3);
  }

  lemma StartFour(fs: seq<Field>)
    requires |fs| >= 4
    ensures Start(fs, 0) == 0 && Start(fs, 1) == fs[0].width && Start(fs, 2) == fs[0].width + fs[1].width
    ensures Start(fs, 3) == fs[0].width + fs[1].width + fs[2].width
    ensures Start(fs, 4) == fs[0].width + fs[1].width + fs[2].width + fs[3].width
  {
    var t := fs[1..];
    var u := t[1..];
    var v := u[1..];
    assert t[0] == fs[1] && u[0] == fs[2] && v[0] == fs[3];
    assert Start(v, 1) == fs[3].width && Start(u, 1) == fs[2].width && Start(t, 1) == fs[1].width;
    assert Start(u, 2) == fs[2].width + fs[3].width && Start(t, 2) == fs[1].width + fs[2].width;
  }

  lemma Word1Fits(h: Header)
    requires HeaderOk(h)
    ensures AllFit(Word1(h)) && Pack(Word1(h)) < Pow2(64)
    ensures var v := Pack(Word1(h));
      [GetField(v, 0, 10), GetField(v, 10, 10), GetField(v, 20, 10), GetField(v, 30, 10)] == h.literalStates
      && GetField(v, 40, 20) == h.lmdBytes && GetField(v, 60, 3) == 7 + h.lmdBits
  {
    hide Pow2, Pack, GetField, Start;
    ThreeBits();
    var fs := Word1(h);
    StartFour(fs);
    StartSix(fs);
    PackBound(fs);
    Pow2Mono(63, 64);
    GetPacked(fs, 0);
    GetPacked(fs, 1);
    GetPacked(fs, 2);
    GetPacked(fs, 3);
    GetPacked(fs, 4);
    GetPacked(fs, 5);
  }

  lemma StartSix(fs: seq<Field>)
    requires |fs| == 6
    ensures Start(fs, 5) == Start(fs, 4) + fs[4].width && Start(fs, 6) == Start(fs, 4) + fs[4].width + fs[5].width
  {
    StartFour(fs);
    var t := fs[1..];
    StartFour(t);
    assert Start(fs, 5) == fs[0].width + Start(t, 4);
    var u := t[1..];
    StartFour(u);
    assert Start(fs, 6) == fs[0].width + (t[0].width + Start(u, 4));
  }

  lemma Word2Fits(h: Header)
    requires HeaderOk(h)
    ensures AllFit(Word2(h)) && Pack(Word2(h)) < Pow2(64)
    ensures var v := Pack(Word2(h));
      [GetField(v, 32, 10), GetField(v, 42, 10), GetField(v, 52, 10)] == h.lmdStates && GetField(v, 0, 32) == h.size
  {
    hide Pow2, Pack, GetField, Start;
    var fs := Word2(h);
    StartFour(fs);
    PackBound(fs);
    Pow2Mono(62, 64);
    GetPacked(fs, 0);
    GetPacked(fs, 1);
    GetPacked(fs, 2);
    GetPacked(fs, 3);
  }

  /** The header comes back, whatever follows it. */
  lemma HeaderBack(h: Header, rest: seq<byte>)
    requires HeaderOk(h)
    ensures h.raw < 0x1_0000_0000 && Load4(HeaderBytes(h) + rest, 0) == V2_MAGIC &&
      ReadHeader(HeaderBytes(h) + rest) == h
  {
    hide Pow2, Pack, GetField, LowBytes, LittleEndian, Store4, Load4, Word0, Word1, Word2;
    WordSizes();
    Word0Fits(h);
    Word1Fits(h);
    Word2Fits(h);
    var m, r := Store4(V2_MAGIC), Store4(h.raw);
    var w0, w1, w2 := LowBytes(Pack(Word0(h)), 8), LowBytes(Pack(Word1(h)), 8), LowBytes(Pack(Word2(h)), 8);
    var s := HeaderBytes(h) + rest;
    WordBack(Pack(Word0(h)), m + r, w1 + w2 + rest);
    assert s == (m + r) + w0 + (w1 + w2 + rest);
    WordBack(Pack(Word1(h)), m + r + w0, w2 + rest);
    assert s == (m + r + w0) + w1 + (w2 + rest);
    WordBack(Pack(Word2(h)), m + r + w0 + w1, rest);
    assert s == (m + r + w0 + w1) + w2 + rest;
    Load4Store4([], V2_MAGIC, r + w0 + w1 + w2 + rest);
    assert s == [] + m + (r + w0 + w1 + w2 + rest);
    Load4Store4(m, h.raw, w0 + w1 + w2 + rest);
    assert s == m + r + (w0 + w1 + w2 + rest);
  }
}
