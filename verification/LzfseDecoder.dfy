/**
 * `lzfse_decode_lmd`: executes the (L, M, D) values of a block, with wide copies while there is room,
 * and can be resumed with more room after the destination was full.
 */
module LzfseDecoder {
  import opened Bytes
  import opened Lmd
  import opened LzfseBlock
  import opened LzvnFormat

  /** Moves eight bytes at a time from `from`, at least once, until `n` bytes are written at `to`. */
  method CopyLiteralWide(dst: array<byte>, to: nat, from: seq<byte>, at: nat, n: nat, end: nat)
    requires to + n + 8 <= end <= dst.Length && at + n <= |from|
    modifies dst
    ensures dst[..to + n] == old(dst[..to]) + from[at..at + n]
    ensures dst[end..] == old(dst[end..])
  {
    var i := 0;
    while true
      invariant 0 <= i <= n && (i == 0 || i < n)
      invariant forall k :: 0 <= k < to || end <= k < dst.Length ==> dst[k] == old(dst[k])
      invariant forall k :: to <= k < to + i ==> dst[k] == from[at + k - to]
      decreases n + 8 - i
    {
      forall k | to + i <= k < to + i + 8 { dst[k] := if at + k - to < |from| then from[at + k - to] else 0; }
      i := i + 8;
      if i >= n {
        break;
      }
    }
  }

  /** The same inside the destination, `D` bytes back. */
  method CopyMatchWide(dst: array<byte>, to: nat, D: nat, n: nat, end: nat)
    requires to + n + 8 <= end <= dst.Length && 0 < D <= to && (D >= 8 || D >= n)
    modifies dst
    ensures dst[..to + n] == CopyMatch(old(dst[..to]), D, n)
    ensures dst[end..] == old(dst[end..])
  {
    hide CopyMatch;
    var i := 0;
    while true
      invariant 0 <= i <= n && (i == 0 || i < n)
      invariant forall k :: 0 <= k < to || end <= k < dst.Length ==> dst[k] == old(dst[k])
      invariant forall k :: to <= k < to + i ==> dst[k] == dst[k - D]
      decreases n + 8 - i
    {
      forall k | to + i <= k < to + i + 8 { dst[k] := dst[k - D]; }
      i := i + 8;
      if i >= n {
        break;
      }
    }
    CopyMatchPointwise(old(dst[..to]), D, n, dst[..to + n]);
  }

  /** Byte by byte. */
  method CopyLiteralBytes(dst: array<byte>, to: nat, from: seq<byte>, at: nat, n: nat, end: nat)
    requires to + n <= end <= dst.Length && at + n <= |from|
    modifies dst
    ensures dst[..to + n] == old(dst[..to]) + from[at..at + n] && dst[end..] == old(dst[end..])
  {
    for i := 0 to n
      invariant forall k :: 0 <= k < to || end <= k < dst.Length ==> dst[k] == old(dst[k])
      invariant forall k :: to <= k < to + i ==> dst[k] == from[at + k - to]
    {
      dst[to + i] := from[at + i];
    }
  }

  method CopyMatchBytes(dst: array<byte>, to: nat, D: nat, n: nat, end: nat)
    requires to + n <= end <= dst.Length && 0 < D <= to
    modifies dst
    ensures dst[..to + n] == CopyMatch(old(dst[..to]), D, n) && dst[end..] == old(dst[end..])
  {
    hide CopyMatch;
    for i := 0 to n
      invariant forall k :: 0 <= k < to || end <= k < dst.Length ==> dst[k] == old(dst[k])
      invariant forall k :: to <= k < to + i ==> dst[k] == dst[k - D]
    {
      dst[to + i] := dst[to + i - D];
    }
    CopyMatchPointwise(old(dst[..to]), D, n, dst[..to + n]);
  }

  /** Literals and match of one triple, with wide copies. */
  method FastCopy(dst: array<byte>, to: nat, from: seq<byte>, at: nat, L: nat, M: nat, D: nat, end: nat)
    requires to + L + M + 32 <= end <= dst.Length && at + L <= |from| && 0 < D <= to + L
    modifies dst
    ensures dst[..to + L + M] == CopyMatch(old(dst[..to]) + from[at..at + L], D, M)
    ensures dst[end..] == old(dst[end..])
  {
    hide CopyMatch;
    CopyLiteralWide(dst, to, from, at, L, end);
    if D >= 8 || D >= M {
      CopyMatchWide(dst, to + L, D, M, end);
    } else {
      CopyMatchBytes(dst, to + L, D, M, end);
    }
  }

  // ---------- splitting a triple ----------

  /** The triples still to be executed, the interrupted one first. */
  function Rest(L: nat, M: nat, d: nat, ts: seq<Triple>): seq<Triple> {
    if L == 0 && M == 0 then ts else [Triple(L, M, d)] + ts
  }

  lemma MatchSplit(out: seq<byte>, M: nat, d: nat, ts: seq<Triple>, lits: seq<byte>, k: nat)
    requires 0 < d <= |out| && k <= M
    ensures Replay(out, [Triple(0, M, d)] + ts, lits, d) ==
      Replay(CopyMatch(out, d, k), [Triple(0, M - k, d)] + ts, lits, d)
  {
    CopyMatchSplit(out, d, k, M - k);
    hide CopyMatch;
    var a, b := [Triple(0, M, d)] + ts, [Triple(0, M - k, d)] + ts;
    assert a[1..] == ts == b[1..];
    assert out + lits[..0] == out && CopyMatch(out, d, k) + lits[..0] == CopyMatch(out, d, k);
    assert lits[0..] == lits;
  }

  lemma WholeTriple(out: seq<byte>, L: nat, M: nat, d: nat, ts: seq<Triple>, lits: seq<byte>)
    requires d > 0 && L <= |lits|
    ensures Replay(out, [Triple(L, M, d)] + ts, lits, d)
         == if d > |out| + L then Bad else Replay(CopyMatch(out + lits[..L], d, M), ts, lits[L..], d)
  {
    hide CopyMatch;
    var a := [Triple(L, M, d)] + ts;
    assert a[1..] == ts;
  }

  lemma NextTriple(out: seq<byte>, ts: seq<Triple>, i: nat, lits: seq<byte>, d: nat)
    requires i < |ts|
    ensures var t := ts[i];
      var d' := if t.d != 0 then t.d else d;
      Replay(out, ts[i..], lits, d)
      == if t.l > |lits| then Bad else Replay(out, [Triple(t.l, t.m, d')] + ts[i + 1..], lits, d')
  {
    hide CopyMatch;
    var d' := if ts[i].d != 0 then ts[i].d else d;
    var b := [Triple(ts[i].l, ts[i].m, d')] + ts[i + 1..];
    assert ts[i..][0] == ts[i] && ts[i..][1..] == ts[i + 1..] == b[1..];
  }

  /** `lzfse_compressed_block_decoder_state` with the L, M, D values as their decoders give them. */
  class LmdDecoder {
    const triples: seq<Triple>
    const literals: seq<byte>  // the literal buffer, of which the last byte is never used
    const dst: array<byte>
    var dstPos: nat
    var dstEnd: nat
    var next: nat              // next triple to read
    var lit: nat               // next literal
    var L: nat                 // what is left of an interrupted triple
    var M: nat
    var D: int                 // last distance, -1 before the first

    ghost predicate Valid()
      reads this
    {
      && dstPos <= dstEnd <= dst.Length && next <= |triples| && lit + L < |literals| <= 0x1_0000
      && (D == -1 || D > 0) && (L > 0 || M > 0 ==> D > 0)
    }

    function Distance(): nat
      reads this
    {
      if D < 0 then 0 else D
    }

    function Available(): seq<byte>
      reads this
      requires lit < |literals|
    {
      literals[lit..|literals| - 1]
    }

    /** The output this state stands for. */
    ghost function Meaning(): Replayed
      reads this, dst
      requires Valid()
    {
      Replay(dst[..dstPos], Rest(L, M, Distance(), triples[next..]), Available(), Distance())
    }

    constructor (triples: seq<Triple>, literals: seq<byte>, dst: array<byte>, dstPos: nat, dstEnd: nat)
      requires dstPos <= dstEnd <= dst.Length && 0 < |literals| <= 0x1_0000
      ensures Valid() && Meaning() == Replay(dst[..dstPos], triples, literals[..|literals| - 1], 0)
      ensures this.dst == dst && this.dstPos == dstPos && this.dstEnd == dstEnd
    {
      this.triples, this.literals, this.dst, this.dstPos, this.dstEnd := triples, literals, dst, dstPos, dstEnd;
      next, lit, L, M, D := 0, 0, 0, 0, -1;
      new;
      assert triples[0..] == triples;
    }

    /** More room for the output. */
    method Grow(dstEnd: nat)
      requires Valid() && this.dstEnd <= dstEnd <= dst.Length
      modifies this`dstEnd
      ensures Valid() && this.dstEnd == dstEnd && Meaning() == old(Meaning())
    {
      this.dstEnd := dstEnd;
    }

    /** The triple in `L`, `M`, `D` before anything of it is executed. */
    ghost function Current(): Replayed
      reads this, dst
      requires Valid() || (lit < |literals| && dstPos <= dst.Length && next <= |triples|)
    {
      Replay(dst[..dstPos], [Triple(L, M, Distance())] + triples[next..], Available(), Distance())
    }

    /** Plenty of room: wide copies. */
    method ExecuteFast()
      requires dstPos <= dstEnd <= dst.Length && next <= |triples| && lit + L < |literals|
      requires 0 < D <= dstPos + L && dstPos + L + M + 32 <= dstEnd
      modifies this`dstPos, this`lit, this`L, this`M, dst
      ensures L == 0 && M == 0 && dstPos <= dstEnd && lit < |literals|
      ensures Replay(dst[..dstPos], triples[next..], Available(), D) == old(Current())
      ensures dst[dstEnd..] == old(dst[dstEnd..])
    {
      hide CopyMatch, Replay;
      ghost var avail := Available();
      WholeTriple(dst[..dstPos], L, M, D, triples[next..], avail);
      FastCopy(dst, dstPos, literals, lit, L, M, D, dstEnd);
      assert avail[..L] == literals[lit..lit + L] && avail[L..] == literals[lit + L..|literals| - 1];
      dstPos, lit := dstPos + L + M, lit + L;
      L, M := 0, 0;
    }

    /** The interrupted state is what is left of the triple. */
    ghost predicate Interrupted(meaning: Replayed)
      reads this, dst
    {
      Valid() && dstPos == dstEnd && (L > 0 || M > 0) && Meaning() == meaning
    }

    /** Close to the end of the destination: byte by byte, as far as there is room. */
    method ExecuteLiteral(ghost meaning: Replayed) returns (full: bool)
      requires Valid() && 0 < D <= dstPos + L && Current() == meaning
      modifies this`dstPos, this`lit, this`L, dst
      ensures full ==> Interrupted(meaning)
      ensures !full ==> Valid() && L == 0 && M == old(M) && D <= dstPos && Current() == meaning
      ensures dst[dstEnd..] == old(dst[dstEnd..])
    {
      hide CopyMatch, Replay;
      ghost var out, avail := dst[..dstPos], Available();
      var n := if L <= dstEnd - dstPos then L else dstEnd - dstPos;
      full := n < L;
      CopyLiteralBytes(dst, dstPos, literals, lit, n, dstEnd);
      LiteralSplit(out, L, M, D, triples[next..], avail, n);
      assert avail[..n] == literals[lit..lit + n] && avail[n..] == literals[lit + n..|literals| - 1];
      dstPos, lit, L := dstPos + n, lit + n, L - n;
    }

    method ExecuteCopy(ghost meaning: Replayed) returns (full: bool)
      requires Valid() && 0 < D <= dstPos && L == 0 && Current() == meaning
      modifies this`dstPos, this`M, dst
      ensures full ==> Interrupted(meaning)
      ensures !full ==> Valid() && L == 0 && M == 0 && Replay(dst[..dstPos], triples[next..], Available(), D) == meaning
      ensures dst[dstEnd..] == old(dst[dstEnd..])
    {
      hide CopyMatch, Replay;
      ghost var out, avail := dst[..dstPos], Available();
      var n := if M <= dstEnd - dstPos then M else dstEnd - dstPos;
      full := n < M;
      MatchSplit(out, M, D, triples[next..], avail, n);
      CopyMatchBytes(dst, dstPos, D, n, dstEnd);
      dstPos, M := dstPos + n, M - n;
      if !full {
        FinishedTriple(dst[..dstPos], D, triples[next..], avail);
      }
    }

    /** From the label ExecuteMatch on: the range check, then the fast or the careful path. */
    method Execute(ghost meaning: Replayed) returns (st: Status)
      requires dstPos <= dstEnd <= dst.Length && next <= |triples| && lit + L < |literals| <= 0x1_0000
      requires (D == -1 || D > 0) && Current() == meaning
      modifies this`dstPos, this`lit, this`L, this`M, dst
      ensures st != SrcEmpty && (st == Error ==> meaning == Bad)
      ensures st == DstFull ==> Interrupted(meaning)
      ensures st == Ok ==> Valid() && L == 0 && M == 0 && Meaning() == meaning
      ensures dst[dstEnd..] == old(dst[dstEnd..])
    {
      hide CopyMatch, Replay;
      // As an unsigned number, -1 is beyond any distance.
      if D < 0 || D > dstPos + L {
        TooFar(dst[..dstPos], L, M, Distance(), triples[next..], Available());
        return Error;
      }
      if L + M <= dstEnd - dstPos - 32 {
        ExecuteFast();
        return Ok;
      }
      var full := ExecuteLiteral(meaning);
      if full {
        return DstFull;
      }
      full := ExecuteCopy(meaning);
      st := if full then DstFull else Ok;
    }

    /** The next values of the three streams; false when they ask for more literals than the buffer has. */
    method ReadNext(ghost meaning: Replayed) returns (ok: bool)
      requires Valid() && L == 0 && M == 0 && next < |triples| && Meaning() == meaning
      modifies this`next, this`L, this`M, this`D
      ensures !ok ==> meaning == Bad
      ensures ok ==> dstPos <= dstEnd <= dst.Length && next <= |triples| && lit + L < |literals| <= 0x1_0000
      ensures ok ==> (D == -1 || D > 0) && next == old(next) + 1 && Current() == meaning
    {
      hide CopyMatch, Replay;
      var t := triples[next];
      NextTriple(dst[..dstPos], triples, next, Available(), Distance());
      if lit + t.l >= |literals| {
        return false;
      }
      L, M, next := t.l, t.m, next + 1;
      D := if t.d != 0 then t.d else D;
      ok := true;
    }

    /** `lzfse_decode_lmd`: finishes the block, stops with a full destination, or rejects the block. */
    method Decode() returns (st: Status)
      requires Valid()
      modifies this`dstPos, this`lit, this`L, this`M, this`D, this`next, dst
      ensures st != SrcEmpty && (st == Ok ==> dstPos <= dstEnd && old(Meaning()) == Done(dst[..dstPos]))
      ensures st == DstFull ==> Interrupted(old(Meaning()))
      ensures st == Error ==> old(Meaning()) == Bad
      ensures dst[dstEnd..] == old(dst[dstEnd..])
    {
      hide CopyMatch, Replay;
      ghost var meaning := Meaning();
      if L > 0 || M > 0 {
        st := Execute(meaning);
        if st != Ok {
          return;
        }
      }
      while next < |triples|
        invariant Valid() && L == 0 && M == 0 && Meaning() == meaning && dst[dstEnd..] == old(dst[dstEnd..])
        decreases |triples| - next
      {
        var ok := ReadNext(meaning);
        if !ok {
          return Error;
        }
        st := Execute(meaning);
        if st != Ok {
          return;
        }
      }
      AllExecuted(dst[..dstPos], triples[next..], Available(), Distance());
      return Ok;
    }
  }

  lemma LiteralSplit(out: seq<byte>, L: nat, M: nat, d: nat, ts: seq<Triple>, lits: seq<byte>, k: nat)
    requires d > 0 && k <= L <= |lits|
    ensures Replay(out, [Triple(L, M, d)] + ts, lits, d) ==
      Replay(out + lits[..k], [Triple(L - k, M, d)] + ts, lits[k..], d)
  {
    hide CopyMatch;
    var a, b := [Triple(L, M, d)] + ts, [Triple(L - k, M, d)] + ts;
    assert a[1..] == ts == b[1..];
    assert out + lits[..L] == out + lits[..k] + lits[k..][..L - k];
    assert lits[L..] == lits[k..][L - k..];
  }

  lemma FinishedTriple(out: seq<byte>, d: nat, ts: seq<Triple>, lits: seq<byte>)
    requires 0 < d <= |out|
    ensures Replay(out, [Triple(0, 0, d)] + ts, lits, d) == Replay(out, ts, lits, d)
  {
    WholeTriple(out, 0, 0, d, ts, lits);
    assert out + lits[..0] == out && lits[0..] == lits;
  }

  lemma TooFar(out: seq<byte>, L: nat, M: nat, d: nat, ts: seq<Triple>, lits: seq<byte>)
    requires d == 0 || d > |out| + L
    ensures Replay(out, [Triple(L, M, d)] + ts, lits, d) == Bad
  {
  }

  lemma AllExecuted(out: seq<byte>, ts: seq<Triple>, lits: seq<byte>, d: nat)
    requires ts == []
    ensures Replay(out, ts, lits, d) == Done(out)
  {
  }

  lemma {:induction false} ReplayGrows(out: seq<byte>, ts: seq<Triple>, lits: seq<byte>, d: nat)
    requires Replay(out, ts, lits, d).Done?
    ensures |Replay(out, ts, lits, d).out| >= End(|out|, ts)
    decreases |ts|
  {
    hide CopyMatch;
    if ts != [] {
      var d' := if ts[0].d != 0 then ts[0].d else d;
      ReplayGrows(CopyMatch(out + lits[..ts[0].l], d', ts[0].m), ts[1..], lits[ts[0].l..], d');
    }
  }

  ghost predicate Growing(ends: seq<nat>, from: nat, to: nat) {
    forall i :: 0 <= i < |ends| ==> (if i > 0 then ends[i - 1] else from) <= ends[i] <= to
  }

  /**
   * Decoding with a destination that is made larger each time it is full: the result does not depend
   * on where it was interrupted, and it stays full only if the output is longer than all the room.
   */
  method DecodeInPieces(dec: LmdDecoder, ends: seq<nat>) returns (st: Status)
    requires dec.Valid() && Growing(ends, dec.dstEnd, dec.dst.Length)
    modifies dec, dec.dst
    ensures st == Ok ==> dec.dstPos <= dec.dst.Length && old(dec.Meaning()) == Done(dec.dst[..dec.dstPos])
    ensures st == Error ==> old(dec.Meaning()) == Bad
    ensures st == DstFull && old(dec.Meaning()).Done? ==>
      |old(dec.Meaning()).out| > if ends == [] then old(dec.dstEnd) else ends[|ends| - 1]
  {
    hide Replay, CopyMatch;
    ghost var meaning := dec.Meaning();
    st := dec.Decode();
    var i := 0;
    while st == DstFull && i < |ends|
      invariant 0 <= i <= |ends| && dec.dstEnd == if i == 0 then old(dec.dstEnd) else ends[i - 1]
      invariant st == Ok ==> dec.dstPos <= dec.dst.Length && meaning == Done(dec.dst[..dec.dstPos])
      invariant st == Error ==> meaning == Bad
      invariant st == DstFull ==> dec.Interrupted(meaning)
    {
      dec.Grow(ends[i]);
      st := dec.Decode();
      i := i + 1;
    }
    if st == DstFull && meaning.Done? {
      MoreToCome(dec, meaning);
    }
  }

  lemma MoreToCome(dec: LmdDecoder, meaning: Replayed)
    requires dec.Interrupted(meaning) && meaning.Done?
    ensures |meaning.out| > dec.dstEnd
  {
    ReplayGrows(dec.dst[..dec.dstPos], Rest(dec.L, dec.M, dec.Distance(), dec.triples[dec.next..]), dec.Available(),
      dec.Distance());
  }
}
