/** The LZVN front end: hash table, match search, pending match, and the buffer entry points. */
module LzvnSearch {
  import opened Bytes
  import opened LzvnFormat
  import opened LzvnEncoder

  /** `trailing_zero_bytes(a ^ b)`: how many low bytes of two 32-bit words agree. */
  function MatchingBytes(a: nat, b: nat): (n: nat)
    ensures n <= 4
  {
    if a % 0x100 != b % 0x100 then 0
    else if a / 0x100 % 0x100 != b / 0x100 % 0x100 then 1
    else if a / 0x1_0000 % 0x100 != b / 0x1_0000 % 0x100 then 2
    else if a / 0x100_0000 % 0x100 != b / 0x100_0000 % 0x100 then 3
    else 4
  }

  /** The bytes of a loaded word. */
  lemma Load4Bytes(s: seq<byte>, i: nat)
    requires i + 4 <= |s|
    ensures var w := Load4(s, i);
      w % 0x100 == s[i] && w / 0x100 % 0x100 == s[i + 1]
      && w / 0x1_0000 % 0x100 == s[i + 2] && w / 0x100_0000 % 0x100 == s[i + 3]
  {
    var (a, b, c, d) := (s[i] as int, s[i + 1] as int, s[i + 2] as int, s[i + 3] as int);
    var w := Load4(s, i);
    assert w == a + 0x100 * (b + 0x100 * (c + 0x100 * d));
    assert w / 0x100 == b + 0x100 * (c + 0x100 * d);
    assert w / 0x1_0000 == c + 0x100 * d;
    assert w / 0x100_0000 == d;
  }

  /** Agreeing words start with agreeing bytes. */
  lemma MatchingBytesAgree(s: seq<byte>, i: nat, j: nat)
    requires i + 4 <= |s| && j + 4 <= |s|
    ensures var n := MatchingBytes(Load4(s, i), Load4(s, j));
      s[i..i + n] == s[j..j + n] && (n < 4 ==> s[i + n] != s[j + n])
  {
    Load4Bytes(s, i);
    Load4Bytes(s, j);
  }

  /** A value as kept in a signed 32-bit table field. */
  function OffsetToS32(x: nat): int
    requires x <= MAX_SRC_SIZE
  {
    if x < 0x8000_0000 then x else x - 0x1_0000_0000
  }

  function Hash3i(w: nat): (h: nat)
    ensures h < HASH_VALUES
  {
    (w % 0x100_0000 * (1 + 64 + 4096)) % 0x1_0000_0000 / 4096 % HASH_VALUES
  }

  /** A table field is the word at a position no later than `now`, or a wrapped position out of reach. */
  ghost predicate FieldOk(src: seq<byte>, now: nat, index: int, value: nat)
  {
    if index < 0 then index + 0x1_0000_0000 <= now
    else index + 4 <= |src| && value == Load4(src, index)
  }

  ghost predicate EntryOk(src: seq<byte>, now: nat, e: Entry)
  {
    && |e.indices| == |e.values| == 4
    && FieldOk(src, now, e.indices[0], e.values[0]) && FieldOk(src, now, e.indices[1], e.values[1])
    && FieldOk(src, now, e.indices[2], e.values[2]) && FieldOk(src, now, e.indices[3], e.values[3])
  }

  /** A match that can be emitted when `src[..lit]` has been encoded. */
  ghost predicate Usable(src: seq<byte>, lit: nat, m: MatchInfo)
  {
    && lit <= m.mBegin && m.mBegin + 8 <= |src|
    && m.M >= 3 && m.mEnd == m.mBegin + m.M <= |src|
    && m.D <= MAX_DISTANCE && Repeats(src, m.mBegin, m.M, m.D)
  }

  ghost predicate UsableOrNone(src: seq<byte>, lit: nat, m: MatchInfo)
  {
    m.M != 0 ==> Usable(src, lit, m)
  }

  lemma RepeatsJoin(src: seq<byte>, p: nat, m: nat, n: nat, D: nat)
    requires Repeats(src, p, m, D) && Repeats(src, p + m, n, D)
    ensures Repeats(src, p, m + n, D)
  {
    assert src[p..p + m + n] == src[p..p + m] + src[p + m..p + m + n];
    assert src[p - D..p - D + m + n] == src[p - D..p - D + m] + src[p + m - D..p + m - D + n];
  }

  lemma ExtendForward(src: seq<byte>, p: nat, M: nat, D: nat)
    requires Repeats(src, p, M, D) && p + M + 4 <= |src|
    ensures var n := MatchingBytes(Load4(src, p + M), Load4(src, p + M - D)); Repeats(src, p, M + n, D)
  {
    hide MatchingBytes, Load4;
    MatchingBytesAgree(src, p + M, p + M - D);
    RepeatsJoin(src, p, M, MatchingBytes(Load4(src, p + M), Load4(src, p + M - D)), D);
  }

  lemma ExtendBack(src: seq<byte>, p: nat, M: nat, D: nat)
    requires Repeats(src, p, M, D) && D < p && src[p - 1] == src[p - 1 - D]
    ensures Repeats(src, p - 1, M + 1, D)
  {
    assert Repeats(src, p - 1, 1, D) by {
      assert src[p - 1..p] == [src[p - 1]] && src[p - 1 - D..p - D] == [src[p - 1 - D]];
    }
    RepeatsJoin(src, p - 1, 1, M, D);
  }

  /** The forward loop: on while whole words agree, to the first difference or the last bytes. */
  method GrowForward(src: seq<byte>, m: nat, n0: nat, D: nat) returns (M: nat)
    requires 3 <= n0 <= 4 && m + 8 < |src| && 0 < D <= m && Repeats(src, m, n0, D)
    requires n0 < 4 ==> src[m + n0] != src[m + n0 - D]
    ensures n0 <= M && m + M <= |src| && Repeats(src, m, M, D)
    ensures m + M + 4 >= |src| || src[m + M] != src[m + M - D]
  {
    hide Repeats, MatchingBytes, Load4;
    var n := n0;
    M := n0;
    while n == 4 && m + M + 4 < |src|
      invariant n0 <= M <= |src| - m && n <= 4
      invariant Repeats(src, m, M, D) && D <= m
      invariant n < 4 ==> m + M < |src| && src[m + M] != src[m + M - D]
      decreases |src| - M, n
    {
      n := MatchingBytes(Load4(src, m + M), Load4(src, m + M - D));
      MatchingBytesAgree(src, m + M, m + M - D);
      ExtendForward(src, m, M, D);
      M := M + n;
    }
  }

  /** The backward loop, over the literal: to the first difference, to `lit`, or to the start of the source. */
  method GrowBack(src: seq<byte>, lit: nat, m: nat, M: nat, D: nat) returns (b: nat)
    requires lit <= m && Repeats(src, m, M, D)
    ensures lit <= b <= m && Repeats(src, b, M + (m - b), D)
    ensures b == lit || b == D || src[b - 1] != src[b - 1 - D]
  {
    assert D <= m <= |src|;
    hide Repeats;
    b := m;
    var b0 := m - D;
    while b0 > 0 && b > lit && src[b - 1] == src[b0 - 1]
      invariant lit <= b <= m && b0 == b - D >= 0 && Repeats(src, b, M + (m - b), D)
      decreases b
    {
      ExtendBack(src, b, M + (m - b), D);
      b0, b := b0 - 1, b - 1;
    }
  }

  function Gain(M: nat, D: nat): int { M - (if D < 0x600 then 2 else 3) }

  /**
    The match of the bytes at `m` with those at `m0` that cannot be longer: it ends at a difference or among
    the last bytes, and begins at a difference, at the next byte to encode, or where the source begins.
   */
  ghost predicate Longest(src: seq<byte>, lit: nat, m0: int, m: nat, info: MatchInfo)
  {
    && Usable(src, lit, info) && info.D == m - m0 && info.mBegin <= m && m + 3 <= info.mEnd
    && (info.mEnd + 4 >= |src| || src[info.mEnd] != src[info.mEnd - info.D])
    && (info.mBegin == lit || info.mBegin == info.D || src[info.mBegin - 1] != src[info.mBegin - 1 - info.D])
    && info.K == Gain(info.M, info.D)
  }

  /** `lzvn_find_matchN`: `n0` bytes are known to agree at `m0` and `m`; extend the match both ways. */
  method FindMatchN(src: seq<byte>, lit: nat, m0: int, m: nat, n0: nat) returns (found: bool, info: MatchInfo)
    requires lit <= m && m + 8 < |src| && n0 <= 4
    requires m0 < 0 ==> m0 + MAX_DISTANCE < m
    requires m0 >= 0 ==> m0 + 4 <= |src| && src[m0..m0 + n0] == src[m..m + n0]
    requires m0 >= 0 && n0 < 4 ==> src[m0 + n0] != src[m + n0]
    ensures found <==> n0 >= 3 && 0 < m - m0 <= MAX_DISTANCE
    ensures found ==> Longest(src, lit, m0, m, info)
  {
    found, info := false, NO_MATCH;
    if n0 < 3 { return; }
    var D := m - m0;
    if D <= 0 || D > MAX_DISTANCE { return; }
    assert Repeats(src, m, n0, D);
    var M := GrowForward(src, m, n0, D);
    hide Repeats;
    var mEnd := m + M;
    var b := GrowBack(src, lit, m, M, D);
    M := mEnd - b;
    found, info := true, MatchInfo(b, mEnd, M, D, M - (if D < 0x600 then 2 else 3));
  }

  /** `lzvn_find_match`: compares four bytes first. */
  method FindMatch(src: seq<byte>, lit: nat, m0: int, m: nat) returns (found: bool, info: MatchInfo)
    requires lit <= m && m + 8 < |src| && 0 <= m0 <= m
    ensures found <==> MatchingBytes(Load4(src, m), Load4(src, m0)) >= 3 && 0 < m - m0 <= MAX_DISTANCE
    ensures found ==> Longest(src, lit, m0, m, info)
  {
    var n := MatchingBytes(Load4(src, m), Load4(src, m0));
    MatchingBytesAgree(src, m, m0);
    found, info := FindMatchN(src, lit, m0, m, n);
  }

  /** The UPDATE macro: keep the candidate when it gains more, or as much over a longer stretch. */
  function Better(best: MatchInfo, candidate: MatchInfo): (r: MatchInfo)
    ensures r == best || r == candidate
    ensures r.K >= best.K && r.K >= candidate.K
  {
    if candidate.K > best.K || (candidate.K == best.K && candidate.mEnd > best.mEnd + 1) then candidate else best
  }

  /** The `k`th entry of the hash line matches at `now`. */
  ghost predicate Hit(e: Entry, k: nat, now: nat, w: nat)
    requires |e.indices| == |e.values| == 4 && k < 4
  {
    MatchingBytes(e.values[k], w) >= 3 && 0 < now - e.indices[k] <= MAX_DISTANCE
  }

  /** So do the bytes at the previous distance. */
  ghost predicate HitAgain(src: seq<byte>, now: nat, w: nat, dPrev: nat)
    requires dPrev <= now && now + 4 <= |src|
  {
    0 < dPrev <= MAX_DISTANCE && MatchingBytes(w, Load4(src, now - dPrev)) >= 3
  }

  /** Nothing better than `best` is found with `m0`; `bonus` is what a repeated distance saves. */
  ghost predicate Beats(src: seq<byte>, lit: nat, m0: int, now: nat, best: MatchInfo, again: bool)
  {
    best.M != 0 && exists info :: Longest(src, lit, m0, now, info) && best.K >= (if again then info.M - 1 else info.K)
  }

  /** `best` is the longest match for one of the entries, or at the previous distance. */
  ghost predicate Comes(src: seq<byte>, lit: nat, now: nat, e: Entry, w: nat, dPrev: nat, best: MatchInfo)
    requires |e.indices| == |e.values| == 4 && dPrev <= now && now + 4 <= |src|
  {
    || (exists k: nat :: k < 4 && Hit(e, k, now, w) && Longest(src, lit, e.indices[k], now, best))
    || (HitAgain(src, now, w, dPrev) && best.K == best.M - 1 &&
        Longest(src, lit, now - dPrev, now, best.(K := Gain(best.M, best.D))))
  }

  /** Best match at `now` among the four table candidates and the previous distance. */
  method BestMatch(src: seq<byte>, lit: nat, now: nat, e: Entry, w: nat, dPrev: nat) returns (best: MatchInfo)
    requires lit <= now && now + 8 < |src| && dPrev <= lit && EntryOk(src, now, e) && w == Load4(src, now)
    ensures UsableOrNone(src, lit, best) && (best.M == 0 ==> best == NO_MATCH)
    ensures best.M != 0 ==> Comes(src, lit, now, e, w, dPrev, best)
    ensures forall k: nat :: k < 4 && Hit(e, k, now, w) ==> Beats(src, lit, e.indices[k], now, best, false)
    ensures HitAgain(src, now, w, dPrev) ==> Beats(src, lit, now - dPrev, now, best, true)
  {
    hide Repeats, Load4, MatchingBytes;
    best := NO_MATCH;
    var k := 0;
    while k < 4
      invariant 0 <= k <= 4 && UsableOrNone(src, lit, best) && (best.M == 0 ==> best == NO_MATCH) && best.K >= 0
      invariant best.M != 0 ==> Comes(src, lit, now, e, w, dPrev, best)
      invariant forall i: nat :: i < k && Hit(e, i, now, w) ==> Beats(src, lit, e.indices[i], now, best, false)
    {
      var n := MatchingBytes(e.values[k], w);
      assert FieldOk(src, now, e.indices[k], e.values[k]);
      if e.indices[k] >= 0 {
        MatchingBytesAgree(src, e.indices[k], now);
      }
      var found, info := FindMatchN(src, lit, e.indices[k], now, n);
      if found {
        assert Hit(e, k, now, w);
        ghost var before := best;
        best := Better(best, info);
        assert Beats(src, lit, e.indices[k], now, best, false);
      }
      k := k + 1;
    }
    if dPrev != 0 {
      var found, info := FindMatch(src, lit, now - dPrev, now);
      if found {
        best := Better(best, info.(K := info.M - 1));
        assert Beats(src, lit, now - dPrev, now, best, true);
      }
    }
  }

  /** `lzvn_init_table`: every entry is position 0 with the word there. */
  method InitTable(src: seq<byte>) returns (table: array<Entry>)
    requires |src| >= 4
    ensures fresh(table) && table.Length == HASH_VALUES
    ensures forall h :: 0 <= h < table.Length ==> EntryOk(src, 0, table[h])
  {
    var w := Load4(src, 0);
    var e := Entry([0, 0, 0, 0], [w, w, w, w]);
    assert EntryOk(src, 0, e);
    hide EntryOk;
    table := new Entry[HASH_VALUES](_ => e);
  }

  /** What the search has found and emitted so far. */
  datatype Stage = Stage(lit: nat, dPrev: nat, dstPos: nat, pending: MatchInfo)

  /** `best` is what `BestMatch` finds at `now`. */
  ghost predicate Finds(src: seq<byte>, now: nat, s: Stage, e: Entry, w: nat, best: MatchInfo)
  {
    && |e.indices| == |e.values| == 4 && s.dPrev <= now && now + 4 <= |src|
    && (best.M == 0 ==> best == NO_MATCH)
    && (best.M != 0 ==> Comes(src, s.lit, now, e, w, s.dPrev, best))
    && (forall k: nat :: k < 4 && Hit(e, k, now, w) ==> Beats(src, s.lit, e.indices[k], now, best, false))
  }

  /** The two matches cover common bytes. */
  ghost predicate Overlap(pending: MatchInfo, incoming: MatchInfo)
  {
    pending.M != 0 && incoming.M != 0 && incoming.mBegin < pending.mEnd
  }

  /** Too many literals are waiting. */
  ghost predicate Behind(cur: nat, s: Stage) { cur - s.lit >= MAX_LITERAL_BACKLOG }

  /** The match to emit: of two that overlap the one that gains more, else the pending one once it must make way. */
  ghost function Emits(cur: nat, incoming: MatchInfo, s: Stage): MatchInfo
  {
    if Overlap(s.pending, incoming) && incoming.K > s.pending.K then incoming
    else if s.pending.M != 0 && (incoming.M != 0 || Behind(cur, s)) then s.pending
    else NO_MATCH
  }

  lemma EntryShape(src: seq<byte>, now: nat, e: Entry)
    requires EntryOk(src, now, e)
    ensures |e.indices| == |e.values| == 4
  {
  }

  /** `m` was emitted and `keep` is pending. */
  ghost predicate Emitted(m: MatchInfo, keep: MatchInfo, s: Stage, s': Stage)
  {
    && s'.lit == m.mEnd && s'.dPrev == m.D && s'.pending == keep
    && (m.mBegin - s.lit <= 3 ==> s'.dstPos - s.dstPos <= 9 + 2 * (m.M / 271))
  }

  /** What one position of the search does with the match found there. */
  ghost predicate Reacts(cur: nat, incoming: MatchInfo, s: Stage, s': Stage)
  {
    var m := Emits(cur, incoming, s);
    && (if m.M != 0 then Emitted(m, s'.pending, s, s')
        else if incoming.M == 0 && Behind(cur, s) then
          s'.lit == s.lit + 271 && s'.dPrev == s.dPrev && s'.dstPos == s.dstPos + LiteralSize(271)
        else s'.lit == s.lit && s'.dPrev == s.dPrev && s'.dstPos == s.dstPos)
    && s'.pending ==
         if incoming.M == 0 then (if Behind(cur, s) && s.pending.M != 0 then NO_MATCH else s.pending)
         else if Overlap(s.pending, incoming) then NO_MATCH
         else incoming
  }

  /** `lzvn_encoder_state`. */
  class State {
    const src: seq<byte>
    var srcCurrent: nat    // next position to look at
    const srcCurrentEnd: nat
    var srcLiteral: nat    // next byte to encode
    const dst: array<byte>
    var dstPos: nat
    var dstEnd: nat
    var pending: MatchInfo // may still be replaced by a better match
    var dPrev: nat
    const table: array<Entry>

    /** What has been emitted stands for `src[..srcLiteral]`; the pending match and the table are true of `src`. */
    ghost predicate Valid()
      reads this, dst, table
    {
      && dstPos <= dstEnd <= dst.Length
      && table.Length == HASH_VALUES
      && |src| <= MAX_SRC_SIZE
      && (srcCurrent < srcCurrentEnd ==> srcCurrentEnd + MIN_MARGIN <= |src|)
      && dPrev <= srcLiteral <= |src| && 4 * dstPos <= 5 * srcLiteral
      && Encoded(src, dst[..dstPos], srcLiteral, dPrev)
      && UsableOrNone(src, srcLiteral, pending)
      && forall h :: 0 <= h < table.Length ==> EntryOk(src, srcCurrent, table[h])
    }

    /** The `memset` and field setup of `lzvn_encode_partial`. */
    constructor (src: seq<byte>, dst: array<byte>, dstEnd: nat)
      requires MIN_SRC_SIZE <= |src| <= MAX_SRC_SIZE && dstEnd <= dst.Length
      ensures Valid() && this.src == src && this.dst == dst && this.dstEnd == dstEnd
      ensures dstPos == 0 && srcLiteral == 0 && srcCurrent == 0 && dPrev == 0 && pending == NO_MATCH
      ensures fresh(table) && srcCurrentEnd == |src| - MIN_MARGIN
    {
      hide EntryOk, Encoded, Usable;
      this.src, this.dst, this.dstEnd := src, dst, dstEnd;
      srcCurrent, srcCurrentEnd, srcLiteral := 0, |src| - MIN_MARGIN, 0;
      dstPos, pending, dPrev := 0, NO_MATCH, 0;
      var t := InitTable(src);
      table := t;
      new;
      EncodedEmpty(src);
      assert dst[..0] == [];
    }

    /** `lzvn_emit_match`: false, with the state as before, when the destination is full. */
    method EmitMatch(m: MatchInfo) returns (ok: bool)
      requires Valid() && Usable(src, srcLiteral, m)
      requires table as object != dst
      modifies this`srcLiteral, this`dstPos, this`dPrev, dst
      ensures dstPos <= dstEnd && dst[..old(dstPos)] == old(dst[..dstPos])
      ensures ok ==> srcLiteral == m.mEnd && dPrev == m.D <= srcLiteral
      ensures ok && m.mBegin - old(srcLiteral) <= 3 ==> dstPos - old(dstPos) <= 9 + 2 * (m.M / 271)
      ensures !ok ==> srcLiteral == old(srcLiteral) && dPrev == old(dPrev) && dstPos == old(dstPos)
      ensures Roomy() ==> ok
      ensures 4 * dstPos <= 5 * srcLiteral
      ensures Encoded(src, dst[..dstPos], srcLiteral, dPrev)
    {
      hide Encoded;
      var q := Emit(src, srcLiteral, dst, dstPos, dstEnd, m.mBegin - srcLiteral, m.M, m.D, dPrev);
      ok := q < dstEnd;
      if ok {
        dPrev, dstPos, srcLiteral := m.D, q, m.mEnd;
      }
    }

    /** `lzvn_emit_literal`. */
    method EmitLiterals(n: nat) returns (ok: bool)
      requires dstPos <= dstEnd <= dst.Length && srcLiteral + n <= |src|
      requires Encoded(src, dst[..dstPos], srcLiteral, dPrev)
      modifies this`srcLiteral, this`dstPos, dst
      ensures dstPos <= dstEnd && dst[..old(dstPos)] == old(dst[..dstPos])
      ensures ok ==> srcLiteral == old(srcLiteral) + n && dstPos == old(dstPos) + LiteralSize(n)
      ensures !ok ==> srcLiteral == old(srcLiteral) && dstPos == old(dstPos)
      ensures old(dstPos) + LiteralSize(n) + 10 <= dstEnd ==> ok
      ensures Encoded(src, dst[..dstPos], srcLiteral, dPrev)
    {
      hide Encoded;
      var q := EmitLiteral(src, srcLiteral, dst, dstPos, dstEnd, n, dPrev);
      ok := q < dstEnd;
      if ok {
        dstPos, srcLiteral := q, srcLiteral + n;
      }
    }

    /** Enough room for whatever is still to come. */
    ghost predicate Roomy()
      reads this`dstEnd
    {
      4 * dstEnd >= 5 * |src| + 44
    }

    ghost function Now(): Stage
      reads this`srcLiteral, this`dPrev, this`dstPos, this`pending
    {
      Stage(srcLiteral, dPrev, dstPos, pending)
    }

    /** Emits a match, and `keep` is pending from then on. */
    method EmitAndKeep(m: MatchInfo, keep: MatchInfo) returns (ok: bool)
      requires Valid() && Usable(src, srcLiteral, m) && UsableOrNone(src, m.mEnd, keep)
      requires table as object != dst
      modifies this`srcLiteral, this`dstPos, this`dPrev, this`pending, dst
      ensures Valid() && (Roomy() ==> ok)
      ensures if ok then Emitted(m, keep, old(Now()), Now()) else Now() == old(Now())
    {
      hide Encoded, Repeats, EntryOk;
      ok := EmitMatch(m);
      if ok {
        pending := keep;
      }
    }

    /** No match was found: what is waiting is emitted once it is too much. */
    method ResolveNone() returns (ok: bool)
      requires Valid() && srcLiteral <= srcCurrent <= |src|
      requires table as object != dst
      modifies this`srcLiteral, this`dstPos, this`dPrev, this`pending, dst
      ensures Valid() && (Roomy() ==> ok)
      ensures if ok then Reacts(srcCurrent, NO_MATCH, old(Now()), Now()) else Now() == old(Now())
    {
      hide Encoded, Usable, EntryOk, LiteralSize;
      ok := true;
      LiteralSizeBound(271);
      if srcCurrent - srcLiteral >= MAX_LITERAL_BACKLOG {
        if pending.M != 0 {
          ok := EmitAndKeep(pending, NO_MATCH);
        } else {
          ok := EmitLiterals(271);
        }
      }
    }

    /** Decides between the pending and the incoming match; false when the destination is full. */
    method Resolve(incoming: MatchInfo) returns (ok: bool)
      requires Valid() && srcLiteral <= srcCurrent <= |src| && UsableOrNone(src, srcLiteral, incoming)
      requires incoming.M == 0 ==> incoming == NO_MATCH
      requires table as object != dst
      modifies this`srcLiteral, this`dstPos, this`dPrev, this`pending, dst
      ensures Valid() && (Roomy() ==> ok)
      ensures ok ==> Reacts(srcCurrent, incoming, old(Now()), Now())
      ensures !ok ==> srcLiteral == old(srcLiteral) && dPrev == old(dPrev) && dstPos == old(dstPos)
    {
      hide Encoded, Repeats, EntryOk;
      ok := true;
      if incoming.M == 0 {
        ok := ResolveNone();
      } else if pending.M == 0 {
        pending := incoming;
      } else if pending.mEnd <= incoming.mBegin {
        ok := EmitAndKeep(pending, incoming);
      } else {
        if incoming.K > pending.K {
          pending := incoming;
        }
        ok := EmitAndKeep(pending, NO_MATCH);
      }
    }

    /** One position of the search loop, up to the table update; false when the destination is full. */
    method Look(e: Entry, w: nat) returns (ok: bool)
      requires Valid() && srcCurrent < srcCurrentEnd
      requires EntryOk(src, srcCurrent, e) && w == Load4(src, srcCurrent)
      requires table as object != dst
      modifies this`srcLiteral, this`dstPos, this`dPrev, this`pending, dst
      ensures Valid() && (Roomy() ==> ok)
      ensures if srcCurrent < old(srcLiteral) then ok && Now() == old(Now())
              else ok ==> exists incoming ::
                Finds(src, srcCurrent, old(Now()), e, w, incoming) && Reacts(srcCurrent, incoming, old(Now()), Now())
    {
      EntryShape(src, srcCurrent, e);
      hide Encoded, EntryOk, Load4, Usable, Repeats, Comes, Beats, Reacts;
      ok := true;
      if srcCurrent >= srcLiteral {
        var incoming := BestMatch(src, srcLiteral, srcCurrent, e, w, dPrev);
        assert Finds(src, srcCurrent, Now(), e, w, incoming);
        ok := Resolve(incoming);
      }
    }

    /** Pushes the current position into its hash line; the oldest of the four is dropped. */
    method Push(h: nat, w: nat)
      requires Valid() && srcCurrent + 4 <= |src| && h < HASH_VALUES && w == Load4(src, srcCurrent)
      requires srcCurrent < srcCurrentEnd && table as object != dst
      modifies this`srcCurrent, table
      ensures Valid() && srcCurrent == old(srcCurrent) + 1
      ensures old(srcCurrent) < 0x8000_0000 ==> Recent(table[h], srcCurrent)
    {
      hide Encoded, Usable, Load4;
      var e := table[h];
      var e' := Entry([OffsetToS32(srcCurrent)] + e.indices[..3], [w] + e.values[..3]);
      assert EntryOk(src, srcCurrent, e');
      table[h] := e';
      srcCurrent := srcCurrent + 1;
    }

    /** The search of a source of one repeated byte is where it should be. */
    ghost predicate OnTrack()
      requires |src| >= 4
      reads this, table
    {
      && Running(|src|, srcCurrent, Now()) && table.Length == HASH_VALUES
      && (1 <= srcCurrent <= 2 ==> Recent(table[Hash3i(Load4(src, 0))], srcCurrent))
    }

    /** One position of the search loop; false when the destination is full. */
    method Turn(ghost same: bool) returns (ok: bool)
      requires Valid() && table as object != dst && srcCurrent < srcCurrentEnd && srcCurrentEnd + 8 == |src|
      requires same ==> Roomy() && Constant(src) && |src| >= 12 && OnTrack()
      modifies this`srcCurrent, this`srcLiteral, this`dstPos, this`dPrev, this`pending, dst, table
      ensures Valid() && srcCurrent == old(srcCurrent) + if ok then 1 else 0
      ensures same ==> ok && OnTrack()
    {
      hide Valid, Encoded, EntryOk, Running, Recent, Hash3i, Load4, Finds, Reacts, Constant;
      ValidBounds();
      var w := Load4(src, srcCurrent);
      if same { ConstantWord(src, srcCurrent); }
      var h := Hash3i(w);
      ghost var e, before := table[h], Now();
      ok := Look(table[h], w);
      if ok {
        if same { RunningOn(src, srcCurrent, before, Now(), e, w); }
        Push(h, w);
        ValidBounds();
      }
    }

    /** `lzvn_encode`. */
    method Encode()
      requires Valid() && table as object != dst && srcCurrent == 0 && srcCurrentEnd + 8 == |src|
      requires Now() == Stage(0, 0, 0, NO_MATCH)
      modifies this`srcCurrent, this`srcLiteral, this`dstPos, this`dPrev, this`pending, dst, table
      ensures Valid()
      ensures Roomy() && Constant(src) && |src| >= 12 ==> Running(|src|, 3, Now())
    {
      hide Valid, Encoded, EntryOk, Running, Recent, Hash3i, Load4, Constant;
      ValidBounds();
      ghost var same := Roomy() && Constant(src) && |src| >= 12;
      if same { RunningStart(|src|); }
      var ok := true;
      while ok && srcCurrent < srcCurrentEnd
        invariant Valid() && srcCurrent <= srcCurrentEnd
        invariant same ==> ok && OnTrack()
        decreases srcCurrentEnd - srcCurrent, ok
      {
        ok := Turn(same);
      }
      if same { RunningStays(|src|, srcCurrent, Now()); }
    }

    lemma ValidBounds()
      requires Valid()
      ensures dstPos <= dstEnd <= dst.Length && srcLiteral <= |src| && table.Length == HASH_VALUES
      ensures 4 * dstPos <= 5 * srcLiteral
      ensures srcCurrent < srcCurrentEnd ==> srcCurrent + MIN_MARGIN < |src|
      ensures forall h :: 0 <= h < table.Length ==> EntryOk(src, srcCurrent, table[h])
      ensures Encoded(src, dst[..dstPos], srcLiteral, dPrev)
    {
    }
  }

  // ---------------------------------------------------------------------------------------
  // A source of one repeated byte

  /** All bytes are equal. */
  ghost predicate Constant(src: seq<byte>) { forall i, j :: 0 <= i < j < |src| ==> src[i] == src[j] }

  /** The newest entry of the line is the position before `now`. */
  ghost predicate Recent(e: Entry, now: nat) { |e.indices| == 4 && e.indices[0] == now - 1 }

  /**
    Where the search stands at `cur` in `n` equal bytes: the match with the byte before is found at the
    second position and emitted at the third, and then nothing is left to look for.
   */
  ghost predicate Running(n: nat, cur: nat, s: Stage)
  {
    if cur <= 2 then
      && s.lit == s.dPrev == s.dstPos == 0
      && (if cur <= 1 then s.pending == NO_MATCH else Whole(n, s.pending))
    else s.lit + 8 >= n && s.dstPos <= 9 + 2 * (n / 271)
  }

  ghost predicate Whole(n: nat, m: MatchInfo)
  {
    1 <= m.mBegin <= 2 && m.mEnd == m.mBegin + m.M <= n <= m.mEnd + 4 && m.M - 3 <= m.K <= m.M - 2 && m.M != 0
  }

  lemma RunningStart(n: nat)
    ensures Running(n, 0, Stage(0, 0, 0, NO_MATCH))
  {
  }

  lemma RunningStays(n: nat, cur: nat, s: Stage)
    requires Running(n, cur, s) && cur >= 3
    ensures Running(n, 3, s)
  {
  }

  /** One position of the search, as `Look` leaves it. */
  lemma RunningOn(src: seq<byte>, cur: nat, s: Stage, s': Stage, e: Entry, w: nat)
    requires Constant(src) && |src| >= 12 && cur + 8 < |src| && EntryOk(src, cur, e) && w == Load4(src, cur)
    requires Running(|src|, cur, s) && (1 <= cur <= 2 ==> Recent(e, cur))
    requires if cur < s.lit then s' == s
             else exists incoming :: Finds(src, cur, s, e, w, incoming) && Reacts(cur, incoming, s, s')
    ensures Running(|src|, cur + 1, s')
  {
    hide EntryOk, Load4, Finds, Reacts, Constant;
    if cur >= s.lit {
      var incoming :| Finds(src, cur, s, e, w, incoming) && Reacts(cur, incoming, s, s');
      if cur == 0 {
        NoneAtStart(src, e, w, s, incoming);
      } else {
        ConstantBest(src, cur, e, w, s, incoming);
      }
      RunningNext(|src|, cur, s, s', incoming);
    }
  }

  lemma RunningNext(n: nat, cur: nat, s: Stage, s': Stage, incoming: MatchInfo)
    requires n >= 12 && cur <= 2 && Running(n, cur, s) && Reacts(cur, incoming, s, s')
    requires if cur == 0 then incoming == NO_MATCH else Whole(n, incoming)
    ensures Running(n, cur + 1, s')
  {
  }

  lemma ConstantWord(src: seq<byte>, i: nat)
    requires Constant(src) && i + 4 <= |src|
    ensures Load4(src, i) == Load4(src, 0)
  {
  }

  /** There is nothing before the first position. */
  lemma NoneAtStart(src: seq<byte>, e: Entry, w: nat, s: Stage, best: MatchInfo)
    requires |src| >= 4 && EntryOk(src, 0, e) && s.lit == s.dPrev == 0 && Finds(src, 0, s, e, w, best)
    ensures best == NO_MATCH
  {
    hide Longest;
    assert FieldOk(src, 0, e.indices[0], e.values[0]) && FieldOk(src, 0, e.indices[1], e.values[1]);
    assert FieldOk(src, 0, e.indices[2], e.values[2]) && FieldOk(src, 0, e.indices[3], e.values[3]);
    forall k: nat | k < 4 ensures !Hit(e, k, 0, w) {
      assert FieldOk(src, 0, e.indices[k], e.values[k]);
    }
  }

  /** One byte back the whole source matches. */
  lemma ConstantBest(src: seq<byte>, now: nat, e: Entry, w: nat, s: Stage, best: MatchInfo)
    requires Constant(src) && |src| >= 12 && 1 <= now <= 2 && EntryOk(src, now, e) && w == Load4(src, now)
    requires Recent(e, now) && s.lit == s.dPrev == 0 && Finds(src, now, s, e, w, best)
    ensures Whole(|src|, best)
  {
    FirstHit(src, now, e, w);
    hide Load4, EntryOk, Hit;
    assert Beats(src, 0, now - 1, now, best, false);
    var info :| Longest(src, 0, now - 1, now, info) && best.K >= info.K;
    ConstantLongest(src, now, info);
    BestIsLongest(src, now, e, w, best);
  }

  lemma FirstHit(src: seq<byte>, now: nat, e: Entry, w: nat)
    requires Constant(src) && |src| >= 12 && 1 <= now <= 2 && EntryOk(src, now, e) && w == Load4(src, now)
    requires Recent(e, now)
    ensures Hit(e, 0, now, w)
  {
    assert FieldOk(src, now, e.indices[0], e.values[0]);
    ConstantWord(src, now - 1);
    ConstantWord(src, now);
  }

  lemma ConstantLongest(src: seq<byte>, now: nat, info: MatchInfo)
    requires Constant(src) && |src| >= 12 && 1 <= now <= 2 && Longest(src, 0, now - 1, now, info)
    ensures info.mEnd + 4 >= |src| && info.mBegin == 1 && info.mEnd == 1 + info.M && info.K == info.M - 2
  {
  }

  lemma BestIsLongest(src: seq<byte>, now: nat, e: Entry, w: nat, best: MatchInfo)
    requires |e.indices| == |e.values| == 4 && now + 4 <= |src| && 1 <= now <= 2 && Comes(src, 0, now, e, w, 0, best)
    ensures 1 <= best.mBegin <= now && best.mEnd == best.mBegin + best.M <= |src| && best.M - 3 <= best.K <= best.M - 2
  {
    hide Hit;
    var k: nat :| k < 4 && Hit(e, k, now, w) && Longest(src, 0, e.indices[k], now, best);
  }

  /** The end-of-stream instruction closes the stream. */
  lemma EndOfStreamCloses(src: seq<byte>, b: seq<byte>, p: nat, d: nat)
    requires Encoded(src, b, p, d)
    ensures Expand(b + EndMarker(), [], 0) == Ended(src[..p], [])
  {
    hide Expand, EndMarker;
    EndMarkerStops(src[..p], d);
  }

  /** Sets up the state and runs the search loop, unless the source is too small for one. */
  method RunSearch(src: seq<byte>, dst: array<byte>, q1: nat) returns (q: nat, lit: nat, ghost d: nat)
    requires |src| <= MAX_SRC_SIZE && q1 <= dst.Length
    modifies dst
    ensures q <= q1 && lit <= |src| && 4 * q <= 5 * lit && Encoded(src, dst[..q], lit, d)
    ensures Constant(src) && |src| >= 12 && 4 * q1 >= 5 * |src| + 44 ==> lit + 8 >= |src| && q <= 9 + 2 * (|src| / 271)
  {
    hide Encoded, Constant;
    EncodedEmpty(src);
    q, lit, d := 0, 0, 0;
    if |src| < MIN_SRC_SIZE {
      assert dst[..0] == [];
      return;
    }
    var state := new State(src, dst, q1);
    state.Encode();
    state.ValidBounds();
    q, lit, d := state.dstPos, state.srcLiteral, state.dPrev;
  }

  /** Room enough for `n` bytes of any content. */
  predicate Fits(n: nat, room: nat) { n <= MAX_SRC_SIZE && 4 * room >= 5 * n + 76 }

  lemma MarkerIs()
    ensures EndMarker() == [6, 0, 0, 0, 0, 0, 0, 0]
  {
  }

  /** `lzvn_encode_partial`: encodes as much of `src` as fits. */
  method EncodePartial(src: seq<byte>, dst: array<byte>) returns (n: nat, srcUsed: nat)
    modifies dst
    ensures n <= dst.Length && srcUsed <= |src|
    ensures n > 0 ==> Expand(dst[..n], [], 0) == Ended(src[..srcUsed], [])
    ensures n == 0 <==> dst.Length < MIN_DST_SIZE
    ensures n > 0 ==> n >= 8 && dst[n - 8..n] == [6, 0, 0, 0, 0, 0, 0, 0]
    ensures n == 0 ==> srcUsed == 0
    ensures Fits(|src|, dst.Length) ==> srcUsed == |src|
    ensures 4 * n <= 5 * srcUsed + 36
    ensures Constant(src) && |src| >= 12 && Fits(|src|, dst.Length) ==> n <= 26 + 2 * (|src| / 271)
  {
    hide Expand, Encoded, EndMarker, Constant, LiteralSize;
    if dst.Length < MIN_DST_SIZE {
      return 0, 0;
    }
    var part := if |src| > MAX_SRC_SIZE then src[..MAX_SRC_SIZE] else src;
    var q1 := dst.Length - 8;
    var q, lit, d := RunSearch(part, dst, q1);
    LiteralSizeBound(|part| - lit);
    LiteralSizeStep(|part| - lit);
    var q' := EmitLiteral(part, lit, dst, q, q1, |part| - lit, d);
    if q' < q1 {
      q, lit := q', |part|;
    }
    EndOfStreamCloses(part, dst[..q], lit, d);
    assert part[..lit] == src[..lit];
    Put(dst, q, EndMarker());
    MarkerIs();
    assert dst[q..q + 8] == dst[..q + 8][q..];
    return q + 8, lit;
  }

  /** `lzvn_encode_buffer`: 0 unless the whole source was encoded; then the stream expands to the source. */
  method EncodeBuffer(src: seq<byte>, dst: array<byte>) returns (n: nat)
    modifies dst
    ensures n <= dst.Length
    ensures n > 0 ==> Expand(dst[..n], [], 0) == Ended(src, [])
    ensures Fits(|src|, dst.Length) ==> n > 0
    ensures 4 * n <= 5 * |src| + 36
    ensures Constant(src) && |src| >= 12 && Fits(|src|, dst.Length) ==> n <= 26 + 2 * (|src| / 271)
  {
    hide Expand, Constant;
    var srcUsed;
    n, srcUsed := EncodePartial(src, dst);
    if srcUsed != |src| {
      return 0;
    }
    assert src[..|src|] == src;
  }
}
