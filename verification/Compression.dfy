/**
  The compressed container around LZVN streams and raw data, and the growing-buffer loops
  that the database uses to compress and decompress strings.
 */
module Compression {
  import opened Bytes
  import opened LzvnFormat
  import opened Container
  import opened LzfseBlock
  import Lmd
  import LzfseCodec
  import LzfseDecoder
  import LzfseFrontEnd
  import LzfseHeader
  import LzvnDecoder
  import LzvnSearch

  const LZVN_MIN_SRC: nat := 8
  const LZVN_THRESHOLD: nat := 4096
  const INT32_MAX: nat := 0x7FFF_FFFF
  // The decoder's literal buffer.
  const LITERAL_BUFFER: nat := 40064

  /** An LZVN block that is to give bytes and starts with an undefined opcode. */
  predicate Stuck(s: seq<byte>)
  {
    && |s| >= 12 && Load4(s, 0) == LZVN_MAGIC && Load4(s, 4) > 0 && 0 < Load4(s, 8) <= |s| - 12
    && Parse(s[12..12 + Load4(s, 8)], 0).Undefined?
  }

  /** Too short for a block, or without a block's magic. */
  predicate NoBlock(s: seq<byte>)
  {
    |s| < 4 || Load4(s, 0) !in {ENDOFSTREAM_MAGIC, UNCOMPRESSED_MAGIC, LZVN_MAGIC, LzfseHeader.V2_MAGIC}
  }

  /** `lzfse_decode` on an LZVN block: `raw` bytes are to come from the `n` payload bytes at `s`. */
  method DecodeLzvnBlock(src: seq<byte>, s: nat, n: nat, raw: nat, dst: array<byte>, d: nat)
    returns (status: Status, d': nat)
    requires s <= |src| && d <= dst.Length
    modifies dst
    ensures dst[..d] == old(dst[..d]) && d <= d' <= dst.Length
    ensures s + n <= |src| && GoodPayload(src[s..s + n], old(dst[..d]), raw) ==>
      if d + raw <= dst.Length
      then status == Ok && d' == d + raw && dst[..d'] == Expand(src[s..s + n], old(dst[..d]), 0).out
      else status == DstFull
    ensures s + n > |src| ==> status != Ok
    ensures s + n <= |src| && n > 0 && raw > 0 && Parse(src[s..s + n], 0).Undefined? ==> status == DstFull
    ensures s + n <= |src| && status == Ok ==>
      GoodPayload(src[s..s + n], old(dst[..d]), raw) || Expand(src[s..s + n], old(dst[..d]), 0).Unspecified?
  {
    hide Expand;
    d' := d;
    if n > 0 && s == |src| {
      return SrcEmpty, d;
    }
    var srcEnd := if |src| - s > n then s + n else |src|;
    var dstEnd := if dst.Length - d > raw then d + raw else dst.Length;
    var decoder := new LzvnDecoder.Decoder(src[s..srcEnd], dst, d, dstEnd);
    decoder.Decode();
    if !decoder.endOfStream {
      ExpandEmpty(decoder.Output(), decoder.dPrev);
      assert decoder.srcPos == srcEnd - s ==> decoder.src[decoder.srcPos..] == [];
    }
    var payloadLeft, rawLeft := n - decoder.srcPos, raw - (decoder.dstPos - d);
    d' := decoder.dstPos;
    if payloadLeft == 0 && rawLeft == 0 && decoder.endOfStream {
      status := Ok;
    } else if payloadLeft == 0 || rawLeft == 0 || decoder.endOfStream {
      status := Error;
    } else {
      status := DstFull;
    }
  }

  /** `lzfse_decode` on a raw block: the copy is limited by the source and by the destination. */
  method DecodeRawBlock(src: seq<byte>, s: nat, n: nat, dst: array<byte>, d: nat) returns (status: Status)
    requires s <= |src| && d <= dst.Length
    modifies dst
    ensures dst[..d] == old(dst[..d])
    ensures status == Ok <==> s + n <= |src| && d + n <= dst.Length
    ensures status == Ok ==> dst[..d + n] == old(dst[..d]) + src[s..s + n]
    ensures s + n <= |src| && d + n > dst.Length ==> status == DstFull
  {
    var left: nat, from: nat, to: nat := n, s, d;
    while left != 0
      invariant s <= from <= |src| && d <= to <= dst.Length && from - s == to - d == n - left
      invariant dst[..to] == old(dst[..d]) + src[s..from]
      decreases left
    {
      var size := left;
      if from == |src| {
        assert dst[..d] == dst[..to][..d];
        return SrcEmpty;
      }
      if size > |src| - from { size := |src| - from; }
      if to == dst.Length {
        assert dst[..d] == dst[..to][..d];
        return DstFull;
      }
      if size > dst.Length - to { size := dst.Length - to; }
      ghost var before := dst[..to];
      forall i | to <= i < to + size { dst[i] := src[from + i - to]; }
      assert dst[..to + size] == before + src[from..from + size];
      assert src[s..from + size] == src[s..from] + src[from..from + size];
      from, to, left := from + size, to + size, left - size;
    }
    assert dst[..d] == dst[..to][..d];
    status := Ok;
  }

  /** More literals than are used do not matter. */
  lemma {:induction false} ReplayMore(out: seq<byte>, ts: seq<Lmd.Triple>, lits: seq<byte>, pad: seq<byte>, d: nat)
    requires Replay(out, ts, lits, d).Done?
    ensures Replay(out, ts, lits + pad, d) == Replay(out, ts, lits, d)
    decreases |ts|
  {
    hide CopyMatch;
    if ts != [] {
      var t := ts[0];
      var d' := if t.d != 0 then t.d else d;
      assert (lits + pad)[..t.l] == lits[..t.l] && (lits + pad)[t.l..] == lits[t.l..] + pad;
      ReplayMore(CopyMatch(out + lits[..t.l], d', t.m), ts[1..], lits[t.l..], pad, d');
    }
  }

  /** `lzfse_decode` on a compressed V2 block; `b` is the block the first `n` bytes stand for. */
  method DecodeV2Block(src: seq<byte>, s: nat, dst: array<byte>, d: nat, ghost n: nat, ghost b: Block)
    returns (status: Status, s': nat, d': nat)
    requires s <= |src| && d <= dst.Length
    modifies dst
    ensures d' <= dst.Length && (status == Ok ==> s < s' <= |src|)
    ensures V2At(src[s..], n, b, old(dst[..d])) ==>
      var full := Replay(old(dst[..d]), b.triples, b.literals, 0).out;
      || (status == Ok && s' == s + n && dst[..d'] == full)
      || (status == DstFull && dst.Length < |full|)
  {
    hide LzfseCodec.V2Bytes, Replay;
    s', d' := s, d;
    ghost var out := dst[..d];
    ghost var good := V2At(src[s..], n, b, out);
    if good { assert src[s..][..n] == src[s..s + n]; }
    var st, block, end := LzfseCodec.DecodeBlock(src, s, s + n, b);
    if st != Ok {
      return st, s, d;
    }
    var literals := block.literals + seq(LITERAL_BUFFER - |block.literals|, _ => 0);
    if good { BufferReplay(out, b, literals); }
    var decoder := new LzfseDecoder.LmdDecoder(block.triples, literals, dst, d, dst.Length);
    var res := decoder.Decode();
    d' := decoder.dstPos;
    status := res;
    if res == Ok {
      s' := end;
    } else {
      if good && res == DstFull { LzfseDecoder.MoreToCome(decoder, Replay(out, b.triples, b.literals, 0)); }
      d' := d;
    }
  }

  lemma BufferReplay(out: seq<byte>, b: Block, literals: seq<byte>)
    requires Replay(out, b.triples, b.literals, 0).Done? && b.literals <= literals && |b.literals| < |literals|
    ensures Replay(out, b.triples, literals[..|literals| - 1], 0) == Replay(out, b.triples, b.literals, 0)
  {
    var pad := literals[|b.literals|..|literals| - 1];
    assert literals[..|literals| - 1] == b.literals + pad;
    ReplayMore(out, b.triples, b.literals, pad, 0);
  }

  /** What stands at a position of the source. */
  lemma StandsAt(src: seq<byte>, s: nat, out: seq<byte>, r: seq<byte>) returns (n: nat, b: Block)
    requires s <= |src| && Stands(src[s..], out, r)
    ensures s + 4 <= |src|
    ensures var magic := Load4(src, s);
      if magic == ENDOFSTREAM_MAGIC then r == out
      else if magic == UNCOMPRESSED_MAGIC then
        && s + 8 <= |src|
        && var n := Load4(src, s + 4);
           s + 8 + n <= |src| && Stands(src[s + 8 + n..], out + src[s + 8..s + 8 + n], r)
      else if magic == LZVN_MAGIC then
        && s + 12 <= |src|
        && var (raw, n) := (Load4(src, s + 4), Load4(src, s + 8));
           && s + 12 + n <= |src| && GoodPayload(src[s + 12..s + 12 + n], out, raw)
           && Stands(src[s + 12 + n..], Expand(src[s + 12..s + 12 + n], out, 0).out, r)
      else
        && magic == LzfseHeader.V2_MAGIC && s + n <= |src| && V2At(src[s..], n, b, out)
        && Stands(src[s + n..], Replay(out, b.triples, b.literals, 0).out, r)
  {
    hide GoodPayload, Expand, Load4, LzfseCodec.V2Bytes, Replay;
    var t := src[s..];
    n, b := 0, Block([], []);
    Load4Drop(src, s, 0);
    if Load4(src, s) == ENDOFSTREAM_MAGIC {
    } else if Load4(src, s) == UNCOMPRESSED_MAGIC {
      Load4Drop(src, s, 4);
      var k := Load4(src, s + 4);
      assert t[8..8 + k] == src[s + 8..s + 8 + k];
      assert t[8 + k..] == src[s + 8 + k..];
    } else if Load4(src, s) == LZVN_MAGIC {
      Load4Drop(src, s, 4);
      Load4Drop(src, s, 8);
      var k := Load4(src, s + 8);
      assert t[12..12 + k] == src[s + 12..s + 12 + k];
      assert t[12 + k..] == src[s + 12 + k..];
    } else {
      n, b :| V2At(t, n, b, out) && Stands(t[n..], Replay(out, b.triples, b.literals, 0).out, r);
      assert t[n..] == src[s + n..];
    }
  }

  lemma BlockAt(src: seq<byte>, s: nat)
    requires s <= |src|
    ensures NoBlock(src[s..]) ==>
      s + 4 > |src| || Load4(src, s) !in {ENDOFSTREAM_MAGIC, UNCOMPRESSED_MAGIC, LZVN_MAGIC, LzfseHeader.V2_MAGIC}
    ensures Stuck(src[s..]) ==>
      && s + 12 <= |src| && Load4(src, s) == LZVN_MAGIC && Load4(src, s + 4) > 0
      && var n := Load4(src, s + 8); 0 < n && s + 12 + n <= |src| && Parse(src[s + 12..s + 12 + n], 0).Undefined?
  {
    hide Load4, Parse;
    var t := src[s..];
    if |t| >= 4 { Load4Drop(src, s, 0); }
    if Stuck(t) {
      Load4Drop(src, s, 4);
      Load4Drop(src, s, 8);
      assert t[12..12 + Load4(t, 8)] == src[s + 12..s + 12 + Load4(t, 8)];
    }
  }

  /** One block: `more` when another one follows. */
  method DecodeBlock(src: seq<byte>, s: nat, dst: array<byte>, d: nat, ghost r: seq<byte>)
    returns (more: bool, status: Status, s': nat, d': nat)
    requires s <= |src| && d <= dst.Length
    modifies dst
    ensures d' <= dst.Length && (more ==> s < s' <= |src|)
    ensures Stands(src[s..], old(dst[..d]), r) && more ==> Stands(src[s'..], dst[..d'], r)
    ensures Stands(src[s..], old(dst[..d]), r) && !more ==>
      || (status == Ok && d' == |r| && dst[..d'] == r)
      || (status == DstFull && dst.Length < |r|)
    ensures Stuck(src[s..]) ==> !more && status == DstFull
    ensures NoBlock(src[s..]) ==> !more && status != DstFull && status != Ok
  {
    hide Expand, Stands, Load4, Replay, LzfseCodec.V2Bytes, Parse;
    BlockAt(src, s);
    more, status, s', d' := false, SrcEmpty, s, d;
    ghost var n, b := 0, Block([], []);
    ghost var good := Stands(src[s..], dst[..d], r);
    if good { n, b := StandsAt(src, s, dst[..d], r); }
    if s + 4 > |src| {
      return;
    }
    var magic := Load4(src, s);
    if magic == ENDOFSTREAM_MAGIC {
      status := Ok;
    } else if magic == UNCOMPRESSED_MAGIC {
      if s + 8 <= |src| {
        var n := Load4(src, s + 4);
        if good { StandsExtends(src[s + 8 + n..], dst[..d] + src[s + 8..s + 8 + n], r); }
        status := DecodeRawBlock(src, s + 8, n, dst, d);
        if status == Ok {
          more, s', d' := true, s + 8 + n, d + n;
        }
      }
    } else if magic == LZVN_MAGIC {
      if s + 12 <= |src| {
        var raw, n := Load4(src, s + 4), Load4(src, s + 8);
        if good { StandsExtends(src[s + 12 + n..], Expand(src[s + 12..s + 12 + n], dst[..d], 0).out, r); }
        status, d' := DecodeLzvnBlock(src, s + 12, n, raw, dst, d);
        if status == Ok {
          more, s' := true, s + 12 + n;
        }
      }
    } else if magic == LzfseHeader.V2_MAGIC {
      if good { StandsExtends(src[s + n..], Replay(dst[..d], b.triples, b.literals, 0).out, r); }
      status, s', d' := DecodeV2Block(src, s, dst, d, n, b);
      more := status == Ok;
    } else {
      status := Error;
    }
  }

  /** `lzfse_decode` on a fresh state: walks the blocks until the end of the stream. */
  method Decode(src: seq<byte>, dst: array<byte>, ghost r: seq<byte>) returns (status: Status, d: nat)
    modifies dst
    ensures d <= dst.Length
    ensures Stands(src, [], r) ==>
      if |r| <= dst.Length then status == Ok && d == |r| && dst[..d] == r else status == DstFull
    ensures Stuck(src) ==> status == DstFull
    ensures NoBlock(src) ==> status != DstFull && status != Ok
  {
    hide Stands, Stuck, NoBlock;
    assert src[0..] == src && dst[..0] == [];
    var s: nat, more := 0, true;
    d, status := 0, SrcEmpty;
    while more
      invariant s <= |src| && d <= dst.Length
      invariant Stands(src, [], r) && more ==> Stands(src[s..], dst[..d], r)
      invariant Stands(src, [], r) && !more ==>
        || (status == Ok && d == |r| && dst[..d] == r)
        || (status == DstFull && dst.Length < |r|)
      invariant Stuck(src) ==> if more then s == 0 else status == DstFull
      invariant NoBlock(src) ==> if more then s == 0 else status != DstFull && status != Ok
      decreases |src| - s, more
    {
      var s': nat;
      more, status, s', d := DecodeBlock(src, s, dst, d, r);
      if more { s := s'; }
    }
  }

  /** `lzfse_decode_buffer`: the number of bytes written, the whole capacity when it was too small, 0 on error. */
  method DecodeBuffer(src: seq<byte>, dst: array<byte>, ghost r: seq<byte>) returns (len: nat)
    modifies dst
    ensures len <= dst.Length
    ensures Stands(src, [], r) && |r| <= dst.Length ==> dst[..len] == r
    ensures Stands(src, [], r) && |r| > dst.Length ==> len == dst.Length
    ensures Stuck(src) ==> len == dst.Length
    ensures NoBlock(src) ==> len == 0
  {
    hide Stands, Stuck, NoBlock;
    var status, d := Decode(src, dst, r);
    len := if status == DstFull then dst.Length else if status != Ok then 0 else d;
  }

  // ---------------------------------------------------------------------------------------
  // Encoding

  /** A raw block followed by the end-of-stream block. */
  function RawContainer(src: seq<byte>): (r: seq<byte>)
    requires |src| < INT32_MAX
    ensures |r| == |src| + 12
  {
    Store4(UNCOMPRESSED_MAGIC) + Store4(|src|) + src + Store4(ENDOFSTREAM_MAGIC)
  }

  /** An LZVN block for `raw` bytes followed by the end-of-stream block. */
  function LzvnContainer(raw: nat, payload: seq<byte>): (r: seq<byte>)
    requires raw < 0x1_0000_0000 && |payload| < 0x1_0000_0000
    ensures |r| == |payload| + 16
  {
    Store4(LZVN_MAGIC) + Store4(raw) + Store4(|payload|) + payload + Store4(ENDOFSTREAM_MAGIC)
  }

  /** The magic numbers are the characters they are written as. */
  lemma MagicsAre()
    ensures Store4(ENDOFSTREAM_MAGIC) == Chars("bvx$") && Store4(UNCOMPRESSED_MAGIC) == Chars("bvx-")
    ensures Store4(LZVN_MAGIC) == Chars("bvxn") && Store4(LzfseHeader.V2_MAGIC) == Chars("bvx2")
  {
  }

  function Chars(s: string): seq<byte>
    requires forall k :: 0 <= k < |s| ==> s[k] < 128 as char
  {
    seq(|s|, k requires 0 <= k < |s| => s[k] as int)
  }

  lemma RawContainerParts(src: seq<byte>)
    requires |src| < INT32_MAX
    ensures var s := RawContainer(src);
      && Load4(s, 0) == UNCOMPRESSED_MAGIC && Load4(s, 4) == |src|
      && s[8..8 + |src|] == src && s[8 + |src|..] == Store4(ENDOFSTREAM_MAGIC)
  {
    hide Store4, Load4;
    var (h, e) := (Store4(UNCOMPRESSED_MAGIC), Store4(ENDOFSTREAM_MAGIC));
    var s := RawContainer(src);
    Load4Store4([], UNCOMPRESSED_MAGIC, Store4(|src|) + src + e);
    assert s == [] + h + (Store4(|src|) + src + e);
    Load4Store4(h, |src|, src + e);
    assert s == h + Store4(|src|) + (src + e);
  }

  lemma RawContainerHolds(src: seq<byte>)
    requires |src| < INT32_MAX
    ensures Stands(RawContainer(src), [], src)
  {
    hide Store4, Load4, RawContainer, Expand, GoodPayload, LzfseCodec.V2Bytes, Replay;
    RawContainerParts(src);
    EndBlock(src);
    assert [] + src == src;
  }

  lemma LzvnContainerParts(raw: nat, payload: seq<byte>)
    requires raw < 0x1_0000_0000 && |payload| < 0x1_0000_0000
    ensures var s := LzvnContainer(raw, payload);
      && Load4(s, 0) == LZVN_MAGIC && Load4(s, 4) == raw && Load4(s, 8) == |payload|
      && s[12..12 + |payload|] == payload && s[12 + |payload|..] == Store4(ENDOFSTREAM_MAGIC)
  {
    hide Store4, Load4;
    var (h, r, n, e) := (Store4(LZVN_MAGIC), Store4(raw), Store4(|payload|), Store4(ENDOFSTREAM_MAGIC));
    var s := LzvnContainer(raw, payload);
    assert Load4(s, 0) == LZVN_MAGIC by {
      Load4Store4([], LZVN_MAGIC, r + n + payload + e);
      assert s == [] + h + (r + n + payload + e);
    }
    assert Load4(s, 4) == raw by {
      Load4Store4(h, raw, n + payload + e);
      assert s == h + r + (n + payload + e);
    }
    assert Load4(s, 8) == |payload| by {
      Load4Store4(h + r, |payload|, payload + e);
      assert s == h + r + n + (payload + e);
    }
  }

  lemma LzvnContainerHolds(src: seq<byte>, payload: seq<byte>)
    requires 0 < |src| < 0x1_0000_0000 && |payload| < 0x1_0000_0000
    requires Expand(payload, [], 0) == Ended(src, [])
    ensures Stands(LzvnContainer(|src|, payload), [], src)
  {
    hide Store4, Load4, Expand, LzvnContainer, LzfseCodec.V2Bytes, Replay;
    LzvnContainerParts(|src|, payload);
    EndBlock(src);
  }

  /**
    `lzfse_encode_buffer`: LZVN below the threshold, LZFSE above it, and a raw block when neither
    helps. 0 when nothing fits; otherwise what was written stands for the source.
   */
  method EncodeBuffer(src: seq<byte>, dst: array<byte>) returns (n: nat)
    requires |src| < 0x8000_0000
    modifies dst
    ensures n <= dst.Length
    ensures n > 0 ==> Stands(dst[..n], [], src)
    ensures |src| < LZVN_THRESHOLD ==> n < |src| + 16
    ensures |src| + 12 <= dst.Length && |src| < INT32_MAX ==> n > 0
    ensures n > 0 && |src| < LZVN_THRESHOLD ==>
      dst[..n] == RawContainer(src) || (|src| >= LZVN_MIN_SRC && Load4(dst[..n], 0) == LZVN_MAGIC)
    ensures Repetitive(src) && 27 <= |src| < LZVN_THRESHOLD && LzvnSearch.Fits(|src| + 16, dst.Length) ==>
      0 < n <= 42 + 2 * (|src| / 271)
    ensures |src| >= LZVN_THRESHOLD && LzfseFrontEnd.Roomy(src, dst.Length) ==> 0 < n <= 12 * |src| + 772
    ensures Repetitive(src) && |src| >= LZVN_THRESHOLD && LzfseFrontEnd.Roomy(src, dst.Length) ==>
      0 < n <= LzfseFrontEnd.SteadyCost(|src|) + 1348
  {
    hide Stands, RawContainer, LzvnContainer, Expand, Load4, LzfseFrontEnd.Roomy, LzfseFrontEnd.SteadyCost;
    hide LzvnSearch.Constant;
    if |src| < LZVN_MIN_SRC {
    } else if |src| < LZVN_THRESHOLD {
      if dst.Length > 16 {
        var payload := new byte[dst.Length - 16];
        var size := LzvnSearch.EncodeBuffer(src, payload);
        if 0 < size < |src| {
          n := size + 16;
          LzvnContainerHolds(src, payload[..size]);
          LzvnContainerParts(|src|, payload[..size]);
          PutAll(dst, LzvnContainer(|src|, payload[..size]));
          return;
        }
      }
    } else {
      var ok, r := LzfseFrontEnd.EncodeLzfse(src, dst.Length);
      if ok {
        StandsExtends(r, [], src);
        StandsLong(r, [], src);
        n := |r|;
        PutAll(dst, r);
        return;
      }
    }
    if |src| + 12 <= dst.Length && |src| < INT32_MAX {
      n := |src| + 12;
      RawContainerHolds(src);
      PutAll(dst, RawContainer(src));
    } else {
      n := 0;
    }
  }

  /** One byte over and over. */
  ghost predicate Repetitive(src: seq<byte>) { LzfseFrontEnd.Constant(src) }

  lemma StandsLong(s: seq<byte>, out: seq<byte>, r: seq<byte>)
    requires Stands(s, out, r)
    ensures |s| >= 4
  {
  }

  method PutAll(dst: array<byte>, bs: seq<byte>)
    requires |bs| <= dst.Length
    modifies dst
    ensures dst[..|bs|] == bs
  {
    forall i | 0 <= i < |bs| { dst[i] := bs[i]; }
  }

  /** LZVN by itself: whatever the capacity, an encoded source is decoded to its last byte and marker. */
  method LzvnRoundTrip(src: seq<byte>, capacity: nat) returns (n: nat, r: seq<byte>, ended: bool)
    requires src != []
    ensures n <= capacity && (n > 0 ==> ended && r == src)
    ensures LzvnSearch.Fits(|src|, capacity) ==> n > 0
  {
    hide Expand;
    var coded := new byte[capacity];
    n := LzvnSearch.EncodeBuffer(src, coded);
    var dst := new byte[|src|];
    var decoder := new LzvnDecoder.Decoder(coded[..n], dst, 0, |src|);
    assert dst[..0] == [];
    decoder.Decode();
    r, ended := dst[..decoder.dstPos], decoder.endOfStream;
  }

  // ---------------------------------------------------------------------------------------
  // The database's loops

  /** `Compress`: tries buffers of one, two, ... times the data's size; thirteen always suffice. */
  method Compress(data: seq<byte>) returns (r: seq<byte>)
    requires |data| < INT32_MAX
    ensures data == [] ==> r == []
    ensures data != [] ==> 0 < |r| <= 13 * |data| && Stands(r, [], data)
    ensures Repetitive(data) && |data| >= LZVN_THRESHOLD ==> |r| <= LzfseFrontEnd.SteadyCost(|data|) + 1348
  {
    hide Stands, Repetitive, LzfseFrontEnd.Roomy, LzfseFrontEnd.SteadyCost, RawContainer, Load4;
    if Repetitive(data) && |data| >= LZVN_THRESHOLD { FirstRound(data); }
    if data == [] {
      return [];
    }
    var times, len: nat := 1, 0;
    r := [];
    while len == 0
      invariant 1 <= times <= 14 && (times == 14 ==> len > 0) && |r| == len
      invariant len > 0 ==> len <= 13 * |data| && Stands(r, [], data)
      invariant Repetitive(data) && |data| >= LZVN_THRESHOLD ==>
        if len == 0 then times == 1 else len <= LzfseFrontEnd.SteadyCost(|data|) + 1348
      decreases 14 - times
    {
      Rounds(|data|, times);
      var destination := new byte[|data| * times];
      len := EncodeBuffer(data, destination);
      r := destination[..len];
      times := times + 1;
    }
  }

  lemma FirstRound(data: seq<byte>)
    requires Repetitive(data) && |data| >= LZVN_THRESHOLD
    ensures LzfseFrontEnd.Roomy(data, |data| * 1)
  {
  }

  lemma Rounds(size: nat, times: nat)
    requires 1 <= size && 1 <= times <= 13
    ensures 0 <= size * times <= 13 * size
    ensures times == 13 ==> size + 12 <= size * times
  {
  }

  /** `Decompress`: grows the buffer until the output does not fill it. */
  method Decompress(data: seq<byte>, ghost full: seq<byte>) returns (r: seq<byte>)
    requires Stands(data, [], full)
    ensures r == full
  {
    hide Stands;
    StandsExtends(data, [], full);
    var times := 5;
    while true
      invariant times >= 5
      decreases |full| + 5 - times
    {
      var destination := new byte[|data| * times];
      var len := DecodeBuffer(data, destination, full);
      times := times + 1;
      if len != destination.Length {
        return destination[..len];
      }
      assert |full| >= |data| * (times - 1) >= times - 1;
    }
  }

  /**
    The first `rounds` rounds of `Decompress`, on any data. Empty data and a stuck block never end
    the loop; data that does not start with a block ends it at once, with nothing.
   */
  method DecompressFor(data: seq<byte>, rounds: nat, ghost full: seq<byte>) returns (ended: bool, r: seq<byte>)
    ensures data == [] || Stuck(data) ==> !ended
    ensures data != [] && NoBlock(data) && rounds > 0 ==> ended && r == []
    ensures Stands(data, [], full) ==> (ended ==> r == full) && (rounds > |full| ==> ended)
  {
    hide Stands, Stuck, NoBlock;
    r := [];
    for k := 0 to rounds
      invariant Stands(data, [], full) ==> k == 0 || |full| >= |data| * (k + 4)
      invariant data != [] && NoBlock(data) ==> k == 0
    {
      var destination := new byte[|data| * (k + 5)];
      var len := DecodeBuffer(data, destination, full);
      if Stands(data, [], full) { StandsExtends(data, [], full); }
      if len != destination.Length {
        return true, destination[..len];
      }
    }
    if Stands(data, [], full) { StandsExtends(data, [], full); }
    ended := false;
  }

  /** Every non-empty string survives compression. */
  method RoundTrip(data: seq<byte>) returns (r: seq<byte>)
    requires 0 < |data| < INT32_MAX
    ensures r == data
  {
    hide Stands;
    var c := Compress(data);
    r := Decompress(c, data);
  }
}
