/** The LZVN encoder: hash-table match search, pending match, and variable-length opcodes. */
module LzvnEncoder {
  import opened Bytes
  import opened LzvnFormat

  const HASH_VALUES: nat := 16384
  const MAX_DISTANCE: nat := 0xFFFF
  const MIN_MARGIN: nat := 8
  const MAX_LITERAL_BACKLOG: nat := 400
  const MIN_SRC_SIZE: nat := 8
  const MAX_SRC_SIZE: nat := 0xFFFF_FFFF
  const MIN_DST_SIZE: nat := 8

  /** A hash line: the four most recent positions (as stored in 32 signed bits) and their words. */
  datatype Entry = Entry(indices: seq<int>, values: seq<nat>)

  /** A match of `M` bytes at `mBegin`, copied from distance `D`; `K` is its gain. */
  datatype MatchInfo = MatchInfo(mBegin: nat, mEnd: nat, M: nat, D: nat, K: int)

  const NO_MATCH := MatchInfo(0, 0, 0, 0, 0)

  // ---------------------------------------------------------------------------------------
  // What a prefix of the output stands for

  /** Whatever follows `b` in the stream is expanded as if `src[..p]` had been produced with distance `d`. */
  ghost predicate Encoded(src: seq<byte>, b: seq<byte>, p: nat, d: nat)
  {
    p <= |src| && forall rest: seq<byte> :: |rest| >= 1 ==> Expand(b + rest, [], 0) == Expand(rest, src[..p], d)
  }

  /** `src[p..p + M]` repeats the bytes `D` places earlier. */
  ghost predicate Repeats(src: seq<byte>, p: nat, M: nat, D: nat)
  {
    0 < D <= p && p + M <= |src| && src[p..p + M] == src[p - D..p - D + M]
  }

  /** `op`, followed by `L` literal bytes, is an instruction for literal length `L`, match length `M`, distance `D`. */
  ghost predicate IsOpcode(op: seq<byte>, L: nat, M: nat, D: nat, dPrev: nat, bare: bool)
  {
    && 1 <= |op| <= 3
    && forall b1: byte, b2: byte ::
      (|op| > 1 ==> b1 == op[1]) && (|op| > 2 ==> b2 == op[2]) ==>
        Dispatch(op[0], b1, b2, dPrev) == Op(|op|, L, M, D, bare)
  }

  /** An opcode is recognised whatever stands after its literal. */
  lemma OpcodeParses(op: seq<byte>, L: nat, M: nat, D: nat, dPrev: nat, bare: bool, tail: seq<byte>)
    requires IsOpcode(op, L, M, D, dPrev, bare) && |tail| > L
    ensures Parse(op + tail, dPrev) == Op(|op|, L, M, D, bare)
  {
    hide Dispatch;
    var s := op + tail;
    var b1: byte, b2: byte := if |s| > 1 then s[1] else 0, if |s| > 2 then s[2] else 0;
    assert Dispatch(op[0], b1, b2, dPrev) == Op(|op|, L, M, D, bare);
  }

  lemma EncodedEmpty(src: seq<byte>)
    ensures Encoded(src, [], 0, 0)
  {
    forall rest: seq<byte> | |rest| >= 1
      ensures Expand([] + rest, [], 0) == Expand(rest, src[..0], 0)
    {
      assert [] + rest == rest;
      assert src[..0] == [];
    }
  }

  /** The effect of an instruction that reproduces the next `L + M` source bytes. */
  lemma ExecuteReproduces(src: seq<byte>, p: nat, op: seq<byte>, L: nat, M: nat, D: nat, bare: bool, rest: seq<byte>)
    requires p + L + M <= |src| && (M == 0 || Repeats(src, p + L, M, D))
    ensures Execute(op + src[p..p + L] + rest, src[..p], |op|, L, M, D, bare) == Next(rest, src[..p + L + M], D)
  {
    hide CopyMatch;
    var s := op + src[p..p + L] + rest;
    assert src[..p] + s[|op|..|op| + L] == src[..p + L];
    assert s[|op| + L..] == rest;
    if M != 0 {
      var q, r := p + L, src[..p + L + M];
      assert r[q..] == src[q..q + M] && r[q - D..|r| - D] == src[q - D..q - D + M];
      CopyMatchUnique(src[..q], D, M, r);
    }
  }

  lemma OpcodeReproduces(src: seq<byte>, p: nat, dPrev: nat, op: seq<byte>, L: nat, M: nat, D: nat, bare: bool,
                         rest: seq<byte>)
    requires p + L + M <= |src| && (M == 0 || Repeats(src, p + L, M, D))
    requires IsOpcode(op, L, M, D, dPrev, bare) && |rest| >= 1
    ensures Expand(op + src[p..p + L] + rest, src[..p], dPrev) == Expand(rest, src[..p + L + M], D)
  {
    hide Parse, CopyMatch, Execute, IsOpcode, Expand;
    var s := op + src[p..p + L] + rest;
    OpcodeParses(op, L, M, D, dPrev, bare, src[p..p + L] + rest);
    assert s == op + (src[p..p + L] + rest);
    ExecuteReproduces(src, p, op, L, M, D, bare, rest);
    ExpandStep(s, src[..p], dPrev, Next(rest, src[..p + L + M], D));
  }

  lemma EncodedOn(src: seq<byte>, b: seq<byte>, p: nat, d: nat, rest: seq<byte>)
    requires Encoded(src, b, p, d) && |rest| >= 1
    ensures Expand(b + rest, [], 0) == Expand(rest, src[..p], d)
  {
  }

  lemma AppendedOn(src: seq<byte>, b: seq<byte>, p: nat, dPrev: nat, op: seq<byte>, L: nat, M: nat, D: nat,
                   bare: bool, rest: seq<byte>)
    requires Encoded(src, b, p, dPrev) && p + L + M <= |src| && |rest| >= 1
    requires IsOpcode(op, L, M, D, dPrev, bare)
    requires M == 0 || Repeats(src, p + L, M, D)
    ensures Expand(b + op + src[p..p + L] + rest, [], 0) == Expand(rest, src[..p + L + M], D)
  {
    hide Expand, IsOpcode, Repeats, Encoded;
    var more := op + src[p..p + L] + rest;
    OpcodeReproduces(src, p, dPrev, op, L, M, D, bare, rest);
    EncodedOn(src, b, p, dPrev, more);
    assert b + op + src[p..p + L] + rest == b + more;
  }

  /** Appending one instruction that reproduces the next `L + M` source bytes. */
  lemma AppendOpcode(src: seq<byte>, b: seq<byte>, p: nat, dPrev: nat, op: seq<byte>, L: nat, M: nat, D: nat,
                     bare: bool)
    requires Encoded(src, b, p, dPrev) && p + L + M <= |src|
    requires IsOpcode(op, L, M, D, dPrev, bare)
    requires M == 0 || Repeats(src, p + L, M, D)
    ensures Encoded(src, b + op + src[p..p + L], p + L + M, D)
  {
    hide Expand, IsOpcode, Repeats;
    forall rest: seq<byte> | |rest| >= 1
      ensures Expand(b + op + src[p..p + L] + rest, [], 0) == Expand(rest, src[..p + L + M], D)
    {
      AppendedOn(src, b, p, dPrev, op, L, M, D, bare, rest);
    }
  }

  /** A match already begun may be continued with a bare match opcode. */
  lemma RepeatsSplit(src: seq<byte>, p: nat, m: nat, M: nat, D: nat)
    requires m <= M && Repeats(src, p, M, D)
    ensures Repeats(src, p, m, D) && Repeats(src, p + m, M - m, D)
  {
    assert src[p..p + M][..m] == src[p..p + m] && src[p..p + M][m..] == src[p + m..p + M];
    assert src[p - D..p - D + M][..m] == src[p - D..p - D + m];
    assert src[p - D..p - D + M][m..] == src[p + m - D..p - D + M];
  }

  // ---------------------------------------------------------------------------------------
  // Opcodes

  /** `1110LLLL`, or `11100000 LLLLLLLL` for 16 bytes and more. */
  function LiteralOpcode(L: nat): (op: seq<byte>)
    requires 1 <= L <= 271
    ensures |op| == if L > 15 then 2 else 1
  {
    if L > 15 then [0xE0, L - 16] else [0xE0 + L]
  }

  lemma LiteralOpcodeCorrect(L: nat, d: nat)
    requires 1 <= L <= 271
    ensures IsOpcode(LiteralOpcode(L), L, 0, d, d, false)
  {
  }

  /** `1111MMMM`, or `11110000 MMMMMMMM` for 16 bytes and more. */
  function MatchOpcode(M: nat): (op: seq<byte>)
    requires 1 <= M <= 271
    ensures |op| == if M > 15 then 2 else 1
  {
    if M > 15 then [0xF0, M - 16] else [0xF0 + M]
  }

  lemma MatchOpcodeCorrect(M: nat, d: nat)
    requires 1 <= M <= 271
    ensures IsOpcode(MatchOpcode(M), 0, M, d, d, true)
  {
  }

  /** The three fields of a first opcode byte. */
  function Head(L: nat, x: nat, low: nat): (o: byte)
    requires L <= 3 && x <= 7 - 2 * L && low <= 7
    ensures o as int == L * 64 + x * 8 + low
    ensures o as int / 64 == L && (o as int / 8) % 8 == x && o as int % 8 == low
    ensures !(0xA0 <= o < 0xC0) && !(0x70 <= o < 0x80) && o < 0xD0
  {
    var o := L * 64 + x * 8 + low;
    assert o / 8 == L * 8 + x;
    o
  }

  /** `LLxxx110`: the previous distance again. */
  lemma PreviousOpcodeCorrect(L: nat, x: nat, d: nat)
    requires 1 <= L <= 3 && x <= 7 - 2 * L
    ensures IsOpcode([Head(L, x, 6)], L, x + 3, d, d, false)
  {
    hide Head;
  }

  /** `LLxxxDDD DDDDDDDD`: short distance. */
  lemma ShortOpcodeCorrect(L: nat, x: nat, D: nat, d: nat)
    requires L <= 3 && x <= 7 - 2 * L && D < 1536
    ensures IsOpcode([Head(L, x, D / 256), D % 256], L, x + 3, D, d, false)
  {
    hide Head;
  }

  /** `LLxxx111 DDDDDDDD DDDDDDDD`: long distance. */
  lemma LongOpcodeCorrect(L: nat, x: nat, D: nat, d: nat)
    requires L <= 3 && x <= 7 - 2 * L && D <= MAX_DISTANCE
    ensures IsOpcode([Head(L, x, 7)] + Store2(D), L, x + 3, D, d, false)
  {
    hide Head, Store2;
  }

  /** `101LLxxx DDDDDDxx DDDDDDDD`: medium distance, match length up to 34. */
  lemma MediumOpcodeCorrect(L: nat, x: nat, D: nat, d: nat)
    requires L <= 3 && x <= 31 && D < 16384
    ensures IsOpcode([0xA0 + x / 4 + L * 8] + Store2(D * 4 + x % 4), L, x + 3, D, d, false)
  {
    var o, w := 0xA0 + x / 4 + L * 8, Store2(D * 4 + x % 4);
    hide Store2;
    assert (o / 8) % 4 == L && o % 8 == x / 4;
    assert w[0] as int % 4 == x % 4 && w[0] as int / 4 + 64 * (w[1] as int) == D;
  }

  // ---------------------------------------------------------------------------------------
  // Writing opcodes into the destination

  /** Stores `bs` at `dst[q..]`. */
  method Put(dst: array<byte>, q: nat, bs: seq<byte>)
    requires q + |bs| <= dst.Length
    modifies dst
    ensures dst[..q + |bs|] == old(dst[..q]) + bs
  {
    forall i | q <= i < q + |bs| { dst[i] := bs[i - q]; }
  }

  /** `lzvn_copy64`: copies `n` bytes by blocks of eight, possibly writing past `q + n`. */
  method Copy64(src: seq<byte>, p: nat, dst: array<byte>, q: nat, n: nat)
    requires p + n + 7 <= |src| && q + n + 7 <= dst.Length
    modifies dst
    ensures dst[..q + n] == old(dst[..q]) + src[p..p + n]
  {
    var i := 0;
    while i < n
      invariant i <= n + 7
      invariant forall k :: 0 <= k < q ==> dst[k] == old(dst[k])
      invariant forall k :: q <= k < q + i ==> dst[k] == src[p + k - q]
    {
      forall k | q + i <= k < q + i + 8 { dst[k] := src[p + k - q]; }
      i := i + 8;
    }
  }

  /** The bytes that `L` literals take: one more for up to 15 of them, two more for up to 271. */
  function LiteralSize(L: nat): nat
  {
    if L > 15 then
      var x := if L < 271 then L else 271;
      2 + x + LiteralSize(L - x)
    else if L > 0 then 1 + L
    else 0
  }

  /** Literals grow by a quarter at most, but for a few single ones. */
  lemma {:induction false} LiteralSizeBound(L: nat)
    ensures L <= LiteralSize(L) && 4 * LiteralSize(L) <= 5 * L + (if L % 271 in {1, 2, 3} then 3 else 0)
  {
    if L > 271 {
      LiteralSizeBound(L - 271);
      assert (L - 271) % 271 == L % 271;
    }
  }

  lemma LiteralSizeStep(L: nat)
    ensures L > 15 ==> var x := if L < 271 then L else 271; LiteralSize(L) == 2 + x + LiteralSize(L - x)
    ensures 0 < L <= 15 ==> LiteralSize(L) == 1 + L
    ensures LiteralSize(0) == 0
  {
  }

  /** Emits `(L,0,0)` instructions. Returns `q1` when the output is full. */
  method EmitLiteral(src: seq<byte>, p0: nat, dst: array<byte>, q0: nat, q1: nat, L0: nat, ghost d: nat)
    returns (q: nat)
    requires q0 <= q1 <= dst.Length && p0 + L0 <= |src|
    requires Encoded(src, dst[..q0], p0, d)
    modifies dst
    ensures q0 <= q <= q1 && dst[..q0] == old(dst[..q0])
    ensures q < q1 ==> Encoded(src, dst[..q], p0 + L0, d) && q == q0 + LiteralSize(L0)
    ensures q0 + LiteralSize(L0) + 10 <= q1 ==> q < q1
  {
    hide Encoded, LiteralOpcode, IsOpcode, LiteralSize;
    var p, L := p0, L0;
    q := q0;
    while L > 15
      invariant p + L == p0 + L0 && q0 <= q <= q1 && q + LiteralSize(L) == q0 + LiteralSize(L0)
      invariant dst[..q0] == old(dst[..q0])
      invariant Encoded(src, dst[..q], p, d)
    {
      var x := if L < 271 then L else 271;
      LiteralSizeStep(L);
      if q + x + 10 >= q1 {
        return q1;
      }
      q := EmitLiteralBytes(src, p, dst, q, x, d, q0);
      L, p := L - x, p + x;
    }
    LiteralSizeStep(L);
    if L > 0 {
      if q + L + 10 >= q1 {
        return q1;
      }
      q := EmitLiteralBytes(src, p, dst, q, L, d, q0);
    }
  }

  /** One literal opcode and exactly its bytes. */
  method EmitLiteralBytes(src: seq<byte>, p: nat, dst: array<byte>, q: nat, x: nat, ghost d: nat, ghost q0: nat)
    returns (q': nat)
    requires 1 <= x <= 271 && q0 <= q && q + x + 2 <= dst.Length && p + x <= |src|
    requires Encoded(src, dst[..q], p, d)
    modifies dst
    ensures q' == q + x + (if x > 15 then 2 else 1) && dst[..q0] == old(dst[..q0])
    ensures Encoded(src, dst[..q'], p + x, d)
  {
    hide Encoded, LiteralOpcode, IsOpcode;
    var op := LiteralOpcode(x);
    LiteralOpcodeCorrect(x, d);
    AppendOpcode(src, dst[..q], p, d, op, x, 0, d, false);
    ghost var before := dst[..q];
    Put(dst, q, op);
    Put(dst, q + |op|, src[p..p + x]);
    q' := q + |op| + x;
    assert dst[..q'] == before + op + src[p..p + x];
    assert dst[..q0] == dst[..q'][..q0] == before[..q0];
  }

  /** Literals of a match instruction, down to the at most three that its opcode can carry. */
  method EmitLongLiterals(src: seq<byte>, p0: nat, dst: array<byte>, q0: nat, q1: nat, L0: nat, ghost d: nat)
    returns (ok: bool, p: nat, q: nat, L: nat)
    requires q0 <= q1 <= dst.Length && p0 + L0 + 8 <= |src|
    requires Encoded(src, dst[..q0], p0, d)
    modifies dst
    ensures q0 <= q <= q1 && dst[..q0] == old(dst[..q0])
    ensures ok ==> L <= 3 && p + L == p0 + L0 && Encoded(src, dst[..q], p, d)
    ensures ok ==> 4 * (q - q0) <= 5 * (L0 - L) && (L0 <= 3 ==> q == q0 && L == L0)
    ensures 4 * (q1 - q0) >= 5 * L0 + 44 ==> ok
  {
    hide Encoded, LiteralOpcode, IsOpcode;
    ok, p, L, q := false, p0, L0, q0;
    while L > 15
      invariant p + L == p0 + L0 && q0 <= q <= q1 && 4 * (q - q0) <= 5 * (L0 - L) && (L0 <= 15 ==> L == L0 && q == q0)
      invariant dst[..q0] == old(dst[..q0])
      invariant Encoded(src, dst[..q], p, d)
    {
      var x := if L < 271 then L else 271;
      if q + x + 10 >= q1 {
        return;
      }
      q := EmitLiteralBlock(src, p, dst, q, x, d, q0);
      L, p := L - x, p + x;
    }
    if L > 3 {
      if q + L + 10 >= q1 {
        return;
      }
      q := EmitLiteralBlock(src, p, dst, q, L, d, q0);
      p, L := p + L, 0;
    }
    ok := true;
  }

  /** One literal opcode and its bytes, moved eight at a time. */
  method EmitLiteralBlock(src: seq<byte>, p: nat, dst: array<byte>, q: nat, x: nat, ghost d: nat, ghost q0: nat)
    returns (q': nat)
    requires 1 <= x <= 271 && q0 <= q && q + x + 9 <= dst.Length && p + x + 8 <= |src|
    requires Encoded(src, dst[..q], p, d)
    modifies dst
    ensures q' == q + x + (if x > 15 then 2 else 1) && dst[..q0] == old(dst[..q0])
    ensures Encoded(src, dst[..q'], p + x, d)
  {
    hide Encoded, LiteralOpcode, IsOpcode;
    var op := LiteralOpcode(x);
    LiteralOpcodeCorrect(x, d);
    AppendOpcode(src, dst[..q], p, d, op, x, 0, d, false);
    ghost var before := dst[..q];
    Put(dst, q, op);
    Copy64(src, p, dst, q + |op|, x);
    q' := q + |op| + x;
    assert dst[..q'] == before + op + src[p..p + x];
    assert dst[..q0] == dst[..q'][..q0] == before[..q0];
  }

  /** Stores a match opcode and, with one four-byte store, the literal it carries. */
  method PutOpcode(src: seq<byte>, p: nat, dst: array<byte>, q: nat, op: seq<byte>, L: nat,
                   ghost M: nat, ghost D: nat, ghost dPrev: nat, ghost bare: bool, ghost q0: nat)
    returns (q': nat)
    requires L <= 3 && p + 4 <= |src| && p + L + M <= |src| && q0 <= q && q + |op| + 4 <= dst.Length
    requires IsOpcode(op, L, M, D, dPrev, bare) && Repeats(src, p + L, M, D)
    requires Encoded(src, dst[..q], p, dPrev)
    modifies dst
    ensures q' == q + |op| + L && dst[..q0] == old(dst[..q0])
    ensures Encoded(src, dst[..q'], p + L + M, D)
  {
    hide Encoded, IsOpcode, Repeats;
    AppendOpcode(src, dst[..q], p, dPrev, op, L, M, D, bare);
    ghost var before := dst[..q];
    Put(dst, q, op);
    Put(dst, q + |op|, src[p..p + 4]);
    q' := q + |op| + L;
    assert dst[..q + |op| + 4] == before + op + src[p..p + 4];
    assert dst[..q'] == dst[..q + |op| + 4][..q'];
    assert src[p..p + L] == src[p..p + 4][..L];
    assert dst[..q'] == before + op + src[p..p + L];
    assert dst[..q0] == dst[..q'][..q0] == before[..q0];
  }

  /** The opcode that opens a match, and how many of the `M` bytes it covers. */
  function HeadOpcode(L: nat, M: nat, D: nat, dPrev: nat): (r: (seq<byte>, nat, bool))
    requires L <= 3 && M >= 3 && D <= MAX_DISTANCE
    ensures 3 <= r.1 <= M && (r.1 == M || r.1 == 10 - 2 * L)
    ensures |r.0| == if D == dPrev then 1 else if D < 1536 then 2 else 3
  {
    var m := if M <= 10 - 2 * L then M else 10 - 2 * L;
    var x := m - 3;
    if D == dPrev then
      if L == 0 then (MatchOpcode(m), m, true) else ([Head(L, x, 6)], m, false)
    else if D < 2048 - 2 * 256 then
      ([Head(L, x, D / 256), D % 256], m, false)
    else if D >= 16384 || M == m || M > 34 then
      ([Head(L, x, 7)] + Store2(D), m, false)
    else
      ([0xA0 + (M - 3) / 4 + L * 8] + Store2(D * 4 + (M - 3) % 4), M, false)
  }

  lemma HeadOpcodeCorrect(L: nat, M: nat, D: nat, dPrev: nat)
    requires L <= 3 && M >= 3 && D <= MAX_DISTANCE
    ensures var (op, m, bare) := HeadOpcode(L, M, D, dPrev); IsOpcode(op, L, m, D, dPrev, bare)
  {
    hide IsOpcode, Store2, Head, MatchOpcode;
    var m := if M <= 10 - 2 * L then M else 10 - 2 * L;
    if D == dPrev {
      if L == 0 { MatchOpcodeCorrect(m, D); } else { PreviousOpcodeCorrect(L, m - 3, D); }
    } else if D < 2048 - 2 * 256 {
      ShortOpcodeCorrect(L, m - 3, D, dPrev);
    } else if D >= 16384 || M == m || M > 34 {
      LongOpcodeCorrect(L, m - 3, D, dPrev);
    } else {
      MediumOpcodeCorrect(L, M - 3, D, dPrev);
    }
  }

  /** Emits `(L,M,D)` instructions, `M >= 3`. Returns `q1` when the output is full. */
  method Emit(src: seq<byte>, p0: nat, dst: array<byte>, q0: nat, q1: nat, L0: nat, M0: nat, D: nat, dPrev: nat)
    returns (q: nat)
    requires q0 <= q1 <= dst.Length && p0 + L0 + 8 <= |src| && p0 + L0 + M0 <= |src|
    requires M0 >= 3 && D <= MAX_DISTANCE && Repeats(src, p0 + L0, M0, D)
    requires Encoded(src, dst[..q0], p0, dPrev)
    modifies dst
    ensures q0 <= q <= q1 && dst[..q0] == old(dst[..q0])
    ensures q < q1 ==> Encoded(src, dst[..q], p0 + L0 + M0, D) && 4 * (q - q0) <= 5 * (L0 + M0)
    ensures q < q1 && L0 <= 3 ==> q - q0 <= 9 + 2 * (M0 / 271)
    ensures 4 * (q1 - q0) >= 5 * (L0 + M0) + 44 ==> q < q1
  {
    hide Encoded, IsOpcode, MatchOpcode, HeadOpcode, Repeats;
    var ok, p, L;
    ok, p, q, L := EmitLongLiterals(src, p0, dst, q0, q1, L0, dPrev);
    if !ok || q + 8 >= q1 {
      return q1;
    }
    var (op, m, bare) := HeadOpcode(L, M0, D, dPrev);
    HeadOpcodeCorrect(L, M0, D, dPrev);
    RepeatsSplit(src, p + L, m, M0, D);
    q := PutOpcode(src, p, dst, q, op, L, m, D, dPrev, bare, q0);
    q := EmitLongMatch(src, p + L + m, dst, q, q1, M0 - m, D, q0);
  }

  /** The rest of a match, in bare match opcodes. Returns `q1` when the output is full. */
  method EmitLongMatch(src: seq<byte>, p0: nat, dst: array<byte>, q: nat, q1: nat, M0: nat, ghost D: nat, ghost q0: nat)
    returns (q': nat)
    requires q0 <= q < q1 <= dst.Length && Repeats(src, p0, M0, D) && Encoded(src, dst[..q], p0, D)
    modifies dst
    ensures q <= q' <= q1 && dst[..q0] == old(dst[..q0])
    ensures q' < q1 ==> Encoded(src, dst[..q'], p0 + M0, D) && q' - q <= M0 && q' - q <= 3 + 2 * (M0 / 271)
    ensures q + M0 + 2 < q1 ==> q' < q1
  {
    hide Encoded, Repeats;
    var M, p := M0, p0;
    q' := q;
    while M > 15
      invariant p + M == p0 + M0 && q <= q' <= q1 && q' - q <= M0 - M
      invariant dst[..q0] == old(dst[..q0]) && Encoded(src, dst[..q'], p, D)
      invariant Repeats(src, p, M, D)
      invariant q' - q + 2 * (M / 271) <= 2 * (M0 / 271) + (if M == 0 then 2 else 0)
    {
      if q' + 2 >= q1 {
        return q1;
      }
      var x := if M < 271 then M else 271;
      RepeatsSplit(src, p, x, M, D);
      q' := EmitMatchBlock(src, p, dst, q', x, D, q0);
      M, p := M - x, p + x;
    }
    if M > 0 {
      if q' + 1 >= q1 {
        return q1;
      }
      q' := EmitMatchBlock(src, p, dst, q', M, D, q0);
    }
  }

  /** One bare match opcode. */
  method EmitMatchBlock(src: seq<byte>, p: nat, dst: array<byte>, q: nat, x: nat, ghost D: nat, ghost q0: nat)
    returns (q': nat)
    requires 1 <= x <= 271 && q0 <= q && q + 2 <= dst.Length
    requires Repeats(src, p, x, D) && Encoded(src, dst[..q], p, D)
    modifies dst
    ensures q' == q + (if x > 15 then 2 else 1) && dst[..q0] == old(dst[..q0])
    ensures Encoded(src, dst[..q'], p + x, D)
  {
    hide Encoded, IsOpcode, MatchOpcode, Dispatch;
    var op := MatchOpcode(x);
    MatchOpcodeCorrect(x, D);
    AppendOpcode(src, dst[..q], p, D, op, 0, x, D, true);
    ghost var before := dst[..q];
    Put(dst, q, op);
    q' := q + |op|;
    assert dst[..q'] == before + op + src[p..p + 0];
    assert dst[..q0] == dst[..q'][..q0] == before[..q0];
  }
}
