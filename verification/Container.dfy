/** The compressed container: raw, LZVN, compressed V2 and end-of-stream blocks, and what they stand for. */
module Container {
  import opened Bytes
  import opened LzvnFormat
  import Lmd
  import opened LzfseBlock
  import opened LzfseCodec
  import opened LzfseHeader

  const ENDOFSTREAM_MAGIC: nat := 0x24787662
  const UNCOMPRESSED_MAGIC: nat := 0x2d787662
  const LZVN_MAGIC: nat := 0x6e787662

  /** A payload that expands to exactly `raw` more bytes and ends with its marker. */
  predicate GoodPayload(payload: seq<byte>, out: seq<byte>, raw: nat)
  {
    var e := Expand(payload, out, 0);
    e.Ended? && e.rest == [] && |e.out| == |out| + raw && raw > 0
  }

  /** The first `n` bytes of `s` are a V2 block for `b`, which can be executed after `out`. */
  ghost predicate V2At(s: seq<byte>, n: nat, b: Block, out: seq<byte>) {
    FIXED_SIZE <= n <= |s| && V2Bytes(s[..n], b) && Replay(out, b.triples, b.literals, 0).Done?
  }

  /** The blocks at the start of `s`, after `out` has been produced, stand for `r`. */
  ghost predicate Stands(s: seq<byte>, out: seq<byte>, r: seq<byte>)
    decreases |s|
  {
    |s| >= 4 &&
    var magic := Load4(s, 0);
    if magic == ENDOFSTREAM_MAGIC then out == r
    else if magic == UNCOMPRESSED_MAGIC then
      && |s| >= 8 && |s| - 8 >= Load4(s, 4)
      && var n := Load4(s, 4); Stands(s[8 + n..], out + s[8..8 + n], r)
    else if magic == LZVN_MAGIC then
      && |s| >= 12 && |s| - 12 >= Load4(s, 8)
      && var (raw, n) := (Load4(s, 4), Load4(s, 8));
         GoodPayload(s[12..12 + n], out, raw) && Stands(s[12 + n..], Expand(s[12..12 + n], out, 0).out, r)
    else
      && magic == V2_MAGIC
      && exists n: nat, b: Block :: V2At(s, n, b, out) && Stands(s[n..], Replay(out, b.triples, b.literals, 0).out, r)
  }

  /** Only adds to what was produced. */
  lemma {:induction false} StandsExtends(s: seq<byte>, out: seq<byte>, r: seq<byte>)
    requires Stands(s, out, r)
    ensures out <= r && |s| >= 4
    decreases |s|
  {
    hide V2Bytes, Expand, Replay, Load4;
    var magic := Load4(s, 0);
    if magic == ENDOFSTREAM_MAGIC {
    } else if magic == UNCOMPRESSED_MAGIC {
      var n := Load4(s, 4);
      StandsExtends(s[8 + n..], out + s[8..8 + n], r);
    } else if magic == LZVN_MAGIC {
      var n := Load4(s, 8);
      StandsExtends(s[12 + n..], Expand(s[12..12 + n], out, 0).out, r);
    } else {
      var n: nat, b: Block :| V2At(s, n, b, out) && Stands(s[n..], Replay(out, b.triples, b.literals, 0).out, r);
      ReplayExtends(out, b.triples, b.literals, 0);
      StandsExtends(s[n..], Replay(out, b.triples, b.literals, 0).out, r);
    }
  }

  lemma {:induction false} ReplayExtends(out: seq<byte>, ts: seq<Lmd.Triple>, lits: seq<byte>, d: nat)
    requires Replay(out, ts, lits, d).Done?
    ensures out <= Replay(out, ts, lits, d).out
    decreases |ts|
  {
    hide CopyMatch;
    if ts != [] {
      var d' := if ts[0].d != 0 then ts[0].d else d;
      ReplayExtends(CopyMatch(out + lits[..ts[0].l], d', ts[0].m), ts[1..], lits[ts[0].l..], d');
    }
  }

  // ---------- streams under construction ----------

  /** `b` takes the decoder from nothing to `out`, whatever follows. */
  ghost predicate Leads(b: seq<byte>, out: seq<byte>) {
    forall rest: seq<byte>, r: seq<byte> :: Stands(rest, out, r) ==> Stands(b + rest, [], r)
  }

  lemma LeadsNothing()
    ensures Leads([], [])
  {
    forall rest: seq<byte>, r: seq<byte> | Stands(rest, [], r)
      ensures Stands([] + rest, [], r) { assert [] + rest == rest; }
  }

  /** A V2 block in front of a stream. */
  lemma V2Step(bytes: seq<byte>, b: Block, out: seq<byte>, rest: seq<byte>, r: seq<byte>)
    requires V2Bytes(bytes, b) && Replay(out, b.triples, b.literals, 0).Done?
    requires Stands(rest, Replay(out, b.triples, b.literals, 0).out, r)
    ensures Stands(bytes + rest, out, r)
  {
    hide Replay, Load4, Expand;
    var s, n := bytes + rest, |bytes|;
    V2Magic(bytes, b, rest);
    assert s[..n] == bytes && s[n..] == rest;
    assert V2At(s, n, b, out);
  }

  lemma LeadsV2(dst: seq<byte>, out: seq<byte>, bytes: seq<byte>, b: Block, out': seq<byte>)
    requires Leads(dst, out) && V2Bytes(bytes, b) && Replay(out, b.triples, b.literals, 0) == Done(out')
    ensures Leads(dst + bytes, out')
  {
    hide Stands, V2Bytes, Replay;
    forall rest: seq<byte>, r: seq<byte> | Stands(rest, out', r) ensures Stands(dst + bytes + rest, [], r) {
      V2Step(bytes, b, out, rest, r);
      assert dst + bytes + rest == dst + (bytes + rest);
    }
  }

  lemma LeadsEnd(dst: seq<byte>, out: seq<byte>)
    requires Leads(dst, out)
    ensures Stands(dst + Store4(ENDOFSTREAM_MAGIC), [], out)
  {
    EndBlock(out);
  }

  lemma EndBlock(out: seq<byte>)
    ensures Stands(Store4(ENDOFSTREAM_MAGIC), out, out)
  {
    hide Store4, Load4;
    Load4Store4([], ENDOFSTREAM_MAGIC, []);
    assert [] + Store4(ENDOFSTREAM_MAGIC) + [] == Store4(ENDOFSTREAM_MAGIC);
  }
}
