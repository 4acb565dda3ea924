/**
 * What the (L, M, D) triples and literals of an LZFSE block stand for, and the rewriting of a
 * repeated distance to 0.
 */
module LzfseBlock {
  import opened Bytes
  import opened Lmd
  import LzvnEncoder
  import LzvnFormat

  datatype Status = Ok | SrcEmpty | DstFull | Error

  const MATCHES_PER_BLOCK: nat := 10000
  const LITERALS_PER_BLOCK: nat := 40000

  /** One compressed block: its triples as coded, and its literals, padded with zeros. */
  datatype Block = Block(triples: seq<Triple>, literals: seq<byte>)

  datatype Replayed = Done(out: seq<byte>) | Bad

  /** Executes the triples; distance 0 repeats the last one, and there is none at the start of a block. */
  function Replay(out: seq<byte>, ts: seq<Triple>, lits: seq<byte>, D: nat): Replayed
    decreases |ts|
  {
    if ts == [] then Done(out)
    else
      var t := ts[0];
      var d := if t.d != 0 then t.d else D;
      if t.l > |lits| || d == 0 || d > |out| + t.l then Bad
      else Replay(LzvnFormat.CopyMatch(out + lits[..t.l], d, t.m), ts[1..], lits[t.l..], d)
  }

  // ---------- triples that describe a piece of the source ----------

  predicate InRange(t: Triple) { t.l <= MaxValue(L) && t.m <= MaxValue(M) && 1 <= t.d <= MaxValue(D) }

  /** The triple, executed at `p`, reproduces the source: its match is a true earlier occurrence. */
  ghost predicate TrueAt(src: seq<byte>, p: nat, t: Triple) {
    && InRange(t) && p + t.l + t.m <= |src| && t.d <= p + t.l
    && (t.m > 0 ==> LzvnEncoder.Repeats(src, p + t.l, t.m, t.d))
  }

  /** Where the triples lead to from `p`. */
  function End(p: nat, ts: seq<Triple>): (q: nat)
    ensures q >= p
    decreases |ts|
  {
    if ts == [] then p else End(p + ts[0].l + ts[0].m, ts[1..])
  }

  ghost predicate AllTrue(src: seq<byte>, p: nat, ts: seq<Triple>)
    decreases |ts|
  {
    ts == [] || (TrueAt(src, p, ts[0]) && AllTrue(src, p + ts[0].l + ts[0].m, ts[1..]))
  }

  function Piece(src: seq<byte>, p: nat, n: nat): seq<byte> { if p + n <= |src| then src[p..p + n] else [] }

  /** The source bytes the triples take as literals. */
  function LiteralsOf(src: seq<byte>, p: nat, ts: seq<Triple>): seq<byte>
    decreases |ts|
  {
    if ts == [] then [] else Piece(src, p, ts[0].l) + LiteralsOf(src, p + ts[0].l + ts[0].m, ts[1..])
  }

  /** Triples and literals that lead from `src[..p]` to `src[..q]`. */
  ghost predicate Describes(src: seq<byte>, p: nat, ts: seq<Triple>, lits: seq<byte>, q: nat) {
    AllTrue(src, p, ts) && lits == LiteralsOf(src, p, ts) && q == End(p, ts)
  }

  lemma {:induction false} AppendEnd(p: nat, ts: seq<Triple>, t: Triple)
    ensures End(p, ts + [t]) == End(p, ts) + t.l + t.m
    decreases |ts|
  {
    var all := ts + [t];
    if ts == [] {
      assert all == [t] && all[1..] == [];
    } else {
      assert all[1..] == ts[1..] + [t];
      AppendEnd(p + ts[0].l + ts[0].m, ts[1..], t);
    }
  }

  lemma {:induction false} AppendTrue(src: seq<byte>, p: nat, ts: seq<Triple>, t: Triple)
    requires AllTrue(src, p, ts) && TrueAt(src, End(p, ts), t)
    ensures AllTrue(src, p, ts + [t])
    decreases |ts|
  {
    hide TrueAt;
    var all := ts + [t];
    if ts == [] {
      assert all == [t] && all[1..] == [];
      assert AllTrue(src, p + t.l + t.m, all[1..]);
    } else {
      assert all[1..] == ts[1..] + [t];
      AppendTrue(src, p + ts[0].l + ts[0].m, ts[1..], t);
    }
  }

  lemma {:induction false} AppendLiterals(src: seq<byte>, p: nat, ts: seq<Triple>, t: Triple)
    ensures LiteralsOf(src, p, ts + [t]) == LiteralsOf(src, p, ts) + Piece(src, End(p, ts), t.l)
    decreases |ts|
  {
    hide Piece;
    var all := ts + [t];
    if ts == [] {
      assert all == [t] && all[1..] == [];
      assert LiteralsOf(src, p + t.l + t.m, []) == [];
    } else {
      var rest, p' := ts[1..], p + ts[0].l + ts[0].m;
      assert all[0] == ts[0] && all[1..] == rest + [t];
      AppendLiterals(src, p', rest, t);
    }
  }

  lemma DescribesAppend(src: seq<byte>, p: nat, ts: seq<Triple>, lits: seq<byte>, q: nat, t: Triple)
    requires Describes(src, p, ts, lits, q) && TrueAt(src, q, t)
    ensures Describes(src, p, ts + [t], lits + src[q..q + t.l], q + t.l + t.m)
  {
    AppendEnd(p, ts, t);
    AppendTrue(src, p, ts, t);
    AppendLiterals(src, p, ts, t);
  }

  lemma {:induction false} DescribesInRange(src: seq<byte>, p: nat, ts: seq<Triple>)
    requires AllTrue(src, p, ts)
    ensures forall i :: 0 <= i < |ts| ==> InRange(ts[i])
    ensures p <= |src| ==> End(p, ts) <= |src|
    decreases |ts|
  {
    if ts != [] {
      DescribesInRange(src, p + ts[0].l + ts[0].m, ts[1..]);
      assert forall i :: 0 < i < |ts| ==> ts[i] == ts[1..][i - 1];
    }
  }

  /** One true triple, executed. */
  lemma ExecuteTrue(src: seq<byte>, p: nat, t: Triple, lits: seq<byte>)
    requires TrueAt(src, p, t) && src[p..p + t.l] <= lits
    ensures LzvnFormat.CopyMatch(src[..p] + lits[..t.l], t.d, t.m) == src[..p + t.l + t.m]
  {
    hide LzvnFormat.CopyMatch;
    var out := src[..p + t.l];
    assert src[..p] + lits[..t.l] == out;
    if t.m > 0 {
      var r := src[..p + t.l + t.m];
      assert r[|out|..] == src[p + t.l..p + t.l + t.m];
      assert r[|out| - t.d..|r| - t.d] == src[p + t.l - t.d..p + t.l + t.m - t.d];
      LzvnFormat.CopyMatchUnique(out, t.d, t.m, r);
    } else {
      LzvnFormat.CopyMatchUnique(out, t.d, 0, out);
    }
  }

  /** Describing triples replay to the source, whatever padding follows their literals. */
  lemma {:induction false} DescribesReplay(src: seq<byte>, p: nat, ts: seq<Triple>, lits: seq<byte>, q: nat,
                                           pad: seq<byte>, D: nat)
    requires p <= |src| && Describes(src, p, ts, lits, q)
    ensures q <= |src| && Replay(src[..p], ts, lits + pad, D) == Done(src[..q])
    decreases |ts|
  {
    hide LzvnFormat.CopyMatch, LzvnEncoder.Repeats;
    if ts != [] {
      var t := ts[0];
      var p', rest := p + t.l + t.m, LiteralsOf(src, p + t.l + t.m, ts[1..]);
      assert lits + pad == src[p..p + t.l] + (rest + pad);
      ExecuteTrue(src, p, t, lits + pad);
      assert (lits + pad)[t.l..] == rest + pad;
      DescribesReplay(src, p', ts[1..], rest, q, pad, t.d);
      ReplayFirst(src[..p], ts, lits + pad, D);
    }
  }

  lemma ReplayFirst(out: seq<byte>, ts: seq<Triple>, lits: seq<byte>, D: nat)
    requires ts != [] && ts[0].l <= |lits| && 0 < ts[0].d <= |out| + ts[0].l
    ensures Replay(out, ts, lits, D)
         == Replay(LzvnFormat.CopyMatch(out + lits[..ts[0].l], ts[0].d, ts[0].m), ts[1..], lits[ts[0].l..], ts[0].d)
  {
  }

  // ---------- repeated distances ----------

  /** The triples as coded: a distance equal to the one before becomes 0. */
  function Delta(ts: seq<Triple>, prev: nat): (r: seq<Triple>)
    ensures |r| == |ts|
  {
    if ts == [] then []
    else if ts[0].d == prev then [ts[0].(d := 0)] + Delta(ts[1..], prev)
    else [ts[0]] + Delta(ts[1..], ts[0].d)
  }

  lemma {:induction false} ReplayDelta(out: seq<byte>, ts: seq<Triple>, lits: seq<byte>, prev: nat)
    requires forall i :: 0 <= i < |ts| ==> InRange(ts[i])
    ensures Replay(out, Delta(ts, prev), lits, prev) == Replay(out, ts, lits, prev)
    decreases |ts|
  {
    hide LzvnFormat.CopyMatch;
    if ts != [] {
      var t, ds := ts[0], Delta(ts, prev);
      assert InRange(t) && forall i :: 0 <= i < |ts| - 1 ==> ts[1..][i] == ts[i + 1];
      assert ds[1..] == Delta(ts[1..], t.d);
      if t.l <= |lits| && t.d <= |out| + t.l {
        ReplayDelta(LzvnFormat.CopyMatch(out + lits[..t.l], t.d, t.m), ts[1..], lits[t.l..], t.d);
      }
    }
  }

  /** The last distance set by `ts`. */
  function LastDistance(ts: seq<Triple>, prev: nat): nat {
    if ts == [] then prev else ts[|ts| - 1].d
  }

  lemma {:induction false} DeltaAt(ts: seq<Triple>, prev: nat, i: nat)
    requires i < |ts|
    ensures Delta(ts, prev)[i] == (if ts[i].d == LastDistance(ts[..i], prev) then ts[i].(d := 0) else ts[i])
    decreases |ts|
  {
    if i > 0 {
      DeltaAt(ts[1..], ts[0].d, i - 1);
      assert ts[1..][..i - 1] == ts[..i][1..];
    }
  }

  /** The in-place rewriting of `lzfse_encode_matches`. */
  method RewriteDistances(triples: array<Triple>, n: nat)
    requires n <= triples.Length
    modifies triples
    ensures triples[..n] == Delta(old(triples[..n]), 0)
  {
    ghost var ts := triples[..n];
    var prev := 0;
    for i := 0 to n
      invariant prev == LastDistance(ts[..i], 0)
      invariant forall k :: 0 <= k < i ==> triples[k] == Delta(ts, 0)[k]
      invariant forall k :: i <= k < n ==> triples[k] == ts[k]
    {
      DeltaAt(ts, 0, i);
      hide Delta;
      var d := triples[i].d;
      if d == prev {
        triples[i] := triples[i].(d := 0);
      } else {
        prev := d;
      }
    }
  }

  /** The revert loop: undoes the rewriting. */
  method RevertDistances(triples: array<Triple>, n: nat, ghost ts: seq<Triple>)
    requires n == |ts| <= triples.Length && triples[..n] == Delta(ts, 0) && forall i :: 0 <= i < n ==> ts[i].d > 0
    modifies triples
    ensures triples[..n] == ts
  {
    var prev := 0;
    for i := 0 to n
      invariant prev == LastDistance(ts[..i], 0)
      invariant forall k :: 0 <= k < i ==> triples[k] == ts[k]
      invariant forall k :: i <= k < n ==> triples[k] == Delta(ts, 0)[k]
    {
      DeltaAt(ts, 0, i);
      hide Delta;
      var d := triples[i].d;
      if d == 0 {
        triples[i] := triples[i].(d := prev);
      } else {
        prev := d;
      }
    }
  }
}
