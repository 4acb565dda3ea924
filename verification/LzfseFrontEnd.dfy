/** The LZFSE front end: match search, the block state with its rollback, and block emission. */
module LzfseFrontEnd {
  import opened Bytes
  import opened Lmd
  import opened LzfseBlock
  import opened LzvnEncoder
  import opened Container
  import LzfseCodec
  import LzvnSearch

  /** All bytes are equal. */
  ghost predicate Constant(src: seq<byte>) { LzvnSearch.Constant(src) }

  const LZFSE_HASH_VALUES := 16384
  const GOOD_MATCH := 40
  const MAX_MATCH_LENGTH := 100 * 2359
  const MAX_L: nat := 315
  const MAX_M: nat := 2359
  const MAX_D: nat := 262139
  // The search may run this far ahead of the literals.
  const BACKLOG := 8 * 315

  // At most what a block takes besides its literals and triples, and the room that it asks for.
  const BLOCK_EXTRA := 768
  const BLOCK_ROOM := 783

  /** `lzfse_match`. */
  datatype Match = Match(pos: nat, ref: int, length: nat)

  const NONE := Match(0, 0, 0)

  /** `lzfse_history_set`: the last four positions with one hash, most recent first. */
  datatype HistorySet = HistorySet(pos: seq<int>, value: seq<nat>)

  /** A match that is true of the source, at or after what was pushed. */
  ghost predicate Usable(src: seq<byte>, lit: nat, m: Match) {
    && lit <= m.pos && m.pos + m.length <= |src| && m.pos - lit <= BACKLOG + 10 &&
      m.length <= MAX_MATCH_LENGTH + BACKLOG + 10
    && 0 < m.pos - m.ref <= MAX_D && 0 <= m.ref
    && (m.length > 0 ==> Repeats(src, m.pos, m.length, m.pos - m.ref))
  }

  /** How many triples a match is split into. */
  function Parts(L: nat, M: nat): nat {
    if L > MAX_L then 1 + Parts(L - MAX_L, M)
    else if M > MAX_M then 1 + Parts(0, M - MAX_M)
    else if L > 0 || M > 0 then 1
    else 0
  }

  /** Copies bytes one by one; for 16 of them, `copy16`. */
  method CopyBytes(dst: array<byte>, at: nat, src: seq<byte>, p: nat, n: nat)
    requires at + n <= dst.Length && p + n <= |src|
    modifies dst
    ensures dst[..at + n] == old(dst[..at]) + src[p..p + n]
  {
    for i := 0 to n
      invariant dst[..at + i] == old(dst[..at]) + src[p..p + i]
    {
      dst[at + i] := src[p + i];
    }
  }

  lemma SlicesJoin(s: seq<byte>, a: nat, b: nat, c: nat)
    requires a <= b <= c <= |s|
    ensures s[a..c] == s[a..b] + s[b..c]
  {
  }

  /** Copies `n` bytes 16 at a time, writing up to 16 more. */
  method CopyWide(dst: array<byte>, at: nat, src: seq<byte>, p: nat, n: nat)
    requires at + n + 16 <= dst.Length && p + n + 16 <= |src|
    modifies dst
    ensures dst[..at + n] == old(dst[..at]) + src[p..p + n]
  {
    CopyBytes(dst, at, src, p, 16);
    var k := 16;
    while k < n
      invariant 16 <= k <= n + 16 && dst[..at + k] == old(dst[..at]) + src[p..p + k]
    {
      CopyBytes(dst, at + k, src, p + k, 16);
      SlicesJoin(src, p, p + k, p + k + 16);
      k := k + 16;
    }
    ghost var was := old(dst[..at]);
    assert src[p..p + k][..n] == src[p..p + n];
    assert (was + src[p..p + k])[..at + n] == was + src[p..p + k][..n];
    assert dst[..at + n] == dst[..at + k][..at + n];
  }

  /** The literal copy of `lzfse_push_lmd`: 16 bytes at a time unless the source ends too soon. */
  method CopyLiterals(dst: array<byte>, at: nat, src: seq<byte>, p: nat, n: nat)
    requires at + n + 16 <= dst.Length && p + n <= |src|
    modifies dst
    ensures dst[..at + n] == old(dst[..at]) + src[p..p + n]
  {
    if p + n + 16 > |src| {
      CopyBytes(dst, at, src, p, n);
    } else {
      CopyWide(dst, at, src, p, n);
    }
  }

  /** How far the encoder is, what it has cost, and the match it holds back. */
  datatype Stage = Stage(lit: nat, cost: nat, pending: Match)

  /** The match to emit: a good one at once, of two that overlap the longer one, else the one held back. */
  ghost function Emits(e: nat, incoming: Match, s: Stage): Match {
    if incoming.length == 0 then
      if e - s.lit <= BACKLOG then NONE
      else if s.pending.length > 0 then s.pending
      else Match(s.lit + MAX_L, s.lit + MAX_L - 1, 0)
    else if incoming.length >= GOOD_MATCH then incoming
    else if s.pending.length == 0 then NONE
    else if s.pending.pos + s.pending.length <= incoming.pos || incoming.length <= s.pending.length then s.pending
    else incoming
  }

  /** The match held back afterwards. */
  ghost function Keeps(e: nat, incoming: Match, s: Stage): Match {
    if incoming.length == 0 then if e - s.lit > BACKLOG && s.pending.length > 0 then NONE else s.pending
    else if incoming.length >= GOOD_MATCH then NONE
    else if s.pending.length == 0 || s.pending.pos + s.pending.length <= incoming.pos then incoming
    else NONE
  }

  ghost predicate Emitted(m: Match, s: Stage, s': Stage) {
    s.lit <= m.pos && s'.lit == m.pos + m.length && s'.cost <= s.cost + MatchCost(m.pos - s.lit, m.length)
  }

  /** What one position of the search does with the match found there. */
  ghost predicate Reacts(e: nat, incoming: Match, s: Stage, s': Stage) {
    var m := Emits(e, incoming, s);
    && s'.pending == Keeps(e, incoming, s)
    && if m == NONE then s'.lit == s.lit && s'.cost == s.cost
       else Emitted(m, s, s')
  }

  /** One position of the search, before the table is updated. */
  ghost predicate Step(src: seq<byte>, e: nat, h: HistorySet, x: nat, s: Stage, s': Stage) {
    if e < s.lit then s' == s
    else exists incoming :: Finds(src, e, s.lit, h, x, incoming) && Reacts(e, incoming, s, s')
  }

  /** `lzfse_encoder_state`. */
  class Encoder {
    const src: seq<byte>
    const capacity: nat   // room in the destination
    var srcEncode: nat    // next position to search
    var srcLiteral: nat   // next byte not described yet
    var pending: Match
    const table: array<HistorySet>
    const triples: array<Triple>
    const literals: array<byte>
    var nMatches: nat
    var nLiterals: nat
    var dst: seq<byte>    // what was written
    var full: bool        // a block did not fit
    ghost var start: nat  // where the current block starts

    /** The counters are within the arrays. */
    ghost predicate Sized()
      reads this`nMatches, this`nLiterals, this`srcLiteral, this`dst, this`start
    {
      && triples.Length == MATCHES_PER_BLOCK && literals.Length == LITERALS_PER_BLOCK
      && nMatches <= MATCHES_PER_BLOCK && nLiterals + 16 <= LITERALS_PER_BLOCK
      && start <= srcLiteral <= |src| && |dst| <= capacity
    }

    /** What has been written, and at most what the stored triples and literals still take. */
    ghost function Cost(): nat
      reads this`dst, this`nLiterals, this`nMatches
    {
      |dst| + 3 * nLiterals + 9 * nMatches
    }

    ghost function Now(): Stage
      reads this`srcLiteral, this`pending, this`dst, this`nLiterals, this`nMatches
    {
      Stage(srcLiteral, Cost(), pending)
    }

    /** Written blocks and stored triples stand for `src[..srcLiteral]`. */
    ghost predicate Good()
      reads this`nMatches, this`nLiterals, this`srcLiteral, this`dst, this`start, triples, literals
      requires Sized()
    {
      && Describes(src, start, triples[..nMatches], literals[..nLiterals], srcLiteral)
      && Leads(dst, src[..start])
    }

    /** `lzfse_push_lmd`: refused, with nothing changed, when the block state is full. */
    method PushLmd(t: Triple) returns (ok: bool)
      requires Sized() && Good() && TrueAt(src, srcLiteral, t)
      modifies this`nMatches, this`nLiterals, this`srcLiteral, triples, literals
      ensures Sized() && Good()
      ensures ok <==> old(nMatches) + 9 <= MATCHES_PER_BLOCK && old(nLiterals) + t.l + 16 <= LITERALS_PER_BLOCK
      ensures ok ==>
        srcLiteral == old(srcLiteral) + t.l + t.m && nMatches == old(nMatches) + 1 && nLiterals == old(nLiterals) + t.l
      ensures !ok ==> srcLiteral == old(srcLiteral) && nMatches == old(nMatches) && nLiterals == old(nLiterals)
      ensures old(triples[..nMatches]) <= triples[..nMatches] && old(literals[..nLiterals]) <= literals[..nLiterals]
    {
      hide Describes, Leads, TrueAt;
      TrueBounds(src, srcLiteral, t);
      if nMatches + 1 + 8 > MATCHES_PER_BLOCK || nLiterals + t.l + 16 > LITERALS_PER_BLOCK {
        return false;
      }
      DescribesAppend(src, start, triples[..nMatches], literals[..nLiterals], srcLiteral, t);
      triples[nMatches] := t;
      CopyLiterals(literals, nLiterals, src, srcLiteral, t.l);
      assert triples[..nMatches + 1] == old(triples[..nMatches]) + [t];
      assert literals[..nLiterals] == literals[..nLiterals + t.l][..nLiterals];
      nMatches, nLiterals, srcLiteral := nMatches + 1, nLiterals + t.l, srcLiteral + t.l + t.m;
      return true;
    }

    /** Splits an over-long literal run: pushes until at most 315 literals are left. */
    method SplitLiterals(L0: nat, M: nat) returns (ok: bool, L: nat)
      requires Sized() && Good() && srcLiteral + L0 <= |src|
      modifies this`nMatches, this`nLiterals, this`srcLiteral, triples, literals
      ensures Sized() && Good() && old(triples[..nMatches]) <= triples[..nMatches] &&
        old(literals[..nLiterals]) <= literals[..nLiterals]
      ensures ok ==> L <= MAX_L && srcLiteral + L == old(srcLiteral) + L0 && nLiterals + L == old(nLiterals) + L0
      ensures ok ==> nMatches + Parts(L, M) == old(nMatches) + Parts(L0, M)
      ensures ok ==> nMatches == old(nMatches) || nMatches + 8 <= MATCHES_PER_BLOCK
      ensures !ok ==> TooMuch(old(nMatches), old(nLiterals), L0, M)
    {
      hide Encoder.Good, Repeats, Parts;
      L := L0;
      while L > MAX_L
        invariant Sized() && Good() && old(triples[..nMatches]) <= triples[..nMatches] &&
          old(literals[..nLiterals]) <= literals[..nLiterals]
        invariant srcLiteral + L == old(srcLiteral) + L0 && nLiterals + L == old(nLiterals) + L0
        invariant nMatches + Parts(L, M) == old(nMatches) + Parts(L0, M)
        invariant nMatches == old(nMatches) || nMatches + 8 <= MATCHES_PER_BLOCK
      {
        PartsStep(L, M);
        ok := PushLmd(Triple(MAX_L, 0, 1));
        if !ok {
          return;
        }
        L := L - MAX_L;
      }
      ok := true;
    }

    /** Splits an over-long match, the literals going with the first part. */
    method SplitMatch(L0: nat, M0: nat, d: nat) returns (ok: bool, L: nat, M: nat)
      requires Sized() && Good() && L0 <= MAX_L && srcLiteral + L0 + M0 <= |src| && 1 <= d <= MAX_D
      requires d <= srcLiteral + L0 && (M0 > 0 ==> Repeats(src, srcLiteral + L0, M0, d))
      modifies this`nMatches, this`nLiterals, this`srcLiteral, triples, literals
      ensures Sized() && Good() && old(triples[..nMatches]) <= triples[..nMatches] &&
        old(literals[..nLiterals]) <= literals[..nLiterals]
      ensures ok ==>
        L <= MAX_L && M <= MAX_M && srcLiteral + L + M == old(srcLiteral) + L0 + M0 &&
          nLiterals + L == old(nLiterals) + L0
      ensures ok ==> nMatches + Parts(L, M) == old(nMatches) + Parts(L0, M0) && d <= srcLiteral + L
      ensures ok ==> (M > 0 ==> Repeats(src, srcLiteral + L, M, d))
      ensures ok ==> nMatches == old(nMatches) || nMatches + 8 <= MATCHES_PER_BLOCK
      ensures !ok ==> TooMuch(old(nMatches), old(nLiterals), L0, M0)
    {
      hide Encoder.Good, Repeats, Parts;
      L, M := L0, M0;
      while M > MAX_M
        invariant Sized() && Good() && old(triples[..nMatches]) <= triples[..nMatches] &&
          old(literals[..nLiterals]) <= literals[..nLiterals]
        invariant L <= MAX_L && srcLiteral + L + M == old(srcLiteral) + L0 + M0 && nLiterals + L == old(nLiterals) + L0
        invariant nMatches + Parts(L, M) == old(nMatches) + Parts(L0, M0) && d <= srcLiteral + L
        invariant M > 0 ==> Repeats(src, srcLiteral + L, M, d)
        invariant nMatches == old(nMatches) || nMatches + 8 <= MATCHES_PER_BLOCK
      {
        RepeatsSplit(src, srcLiteral + L, MAX_M, M, d);
        PartsStep(L, M);
        ok := PushLmd(Triple(L, MAX_M, d));
        if !ok {
          return;
        }
        L, M := 0, M - MAX_M;
      }
      ok := true;
    }

    /** The pushes of `lzfse_push_match`, before any rollback. */
    method PushParts(m: Match) returns (ok: bool)
      requires Sized() && Good() && Usable(src, srcLiteral, m)
      modifies this`nMatches, this`nLiterals, this`srcLiteral, triples, literals
      ensures Sized() && Good() && old(triples[..nMatches]) <= triples[..nMatches] &&
        old(literals[..nLiterals]) <= literals[..nLiterals]
      ensures ok <==> !TooMuch(old(nMatches), old(nLiterals), m.pos - old(srcLiteral), m.length)
      ensures ok ==> srcLiteral == m.pos + m.length && nLiterals == old(nLiterals) + (m.pos - old(srcLiteral))
      ensures ok ==> nMatches == old(nMatches) + Parts(m.pos - old(srcLiteral), m.length)
    {
      hide Encoder.Good, Repeats, Parts;
      var L, M, d := m.pos - srcLiteral, m.length, m.pos - m.ref;
      ok, L := SplitLiterals(L, M);
      if ok {
        ok, L, M := SplitMatch(L, M, d);
        PartsStep(L, M);
        if ok && (L > 0 || M > 0) {
          ok := PushLmd(Triple(L, M, d));
        }
      }
    }

    /** `lzfse_push_match`: refused exactly when it does not fit, and then nothing is left of it. */
    method PushMatch(m: Match) returns (ok: bool)
      requires Sized() && Good() && Usable(src, srcLiteral, m)
      modifies this`nMatches, this`nLiterals, this`srcLiteral, triples, literals
      ensures Sized() && Good()
      ensures ok <==> !TooMuch(old(nMatches), old(nLiterals), m.pos - old(srcLiteral), m.length)
      ensures ok ==> srcLiteral == m.pos + m.length && nLiterals == old(nLiterals) + (m.pos - old(srcLiteral))
      ensures ok ==> nMatches == old(nMatches) + Parts(m.pos - old(srcLiteral), m.length)
      ensures !ok ==> nMatches == old(nMatches) && nLiterals == old(nLiterals) && srcLiteral == old(srcLiteral)
      ensures !ok ==>
        triples[..nMatches] == old(triples[..nMatches]) && literals[..nLiterals] == old(literals[..nLiterals])
    {
      hide Repeats, Parts, TooMuch, Usable, Describes, Leads;
      var nMatches0, nLiterals0, srcLiteral0 := nMatches, nLiterals, srcLiteral;
      ok := PushParts(m);
      if !ok {
        assert triples[..nMatches0] == triples[..nMatches][..nMatches0] == old(triples[..nMatches]);
        assert literals[..nLiterals0] == literals[..nLiterals][..nLiterals0] == old(literals[..nLiterals]);
        nMatches, nLiterals, srcLiteral := nMatches0, nLiterals0, srcLiteral0;
      }
    }

    /** Zero literals up to a multiple of four. */
    method PadLiterals()
      requires Sized()
      modifies this`nLiterals, literals
      ensures triples.Length == MATCHES_PER_BLOCK && old(nLiterals) <= nLiterals <= literals.Length &&
        nLiterals % 4 == 0 && nLiterals <= old(nLiterals) + 3
      ensures old(literals[..nLiterals]) <= literals[..nLiterals]
    {
      while nLiterals % 4 != 0
        invariant old(nLiterals) <= nLiterals <= (old(nLiterals) + 3) / 4 * 4
        invariant nLiterals <= literals.Length && old(literals[..nLiterals]) <= literals[..nLiterals]
        decreases old(nLiterals) + 4 - nLiterals
      {
        literals[nLiterals] := 0;
        nLiterals := nLiterals + 1;
      }
    }

    /** `lzfse_encode_matches`: writes the block, or leaves the state as it was when there is no room. */
    method EncodeMatches() returns (ok: bool)
      requires Sized() && Good()
      modifies this`nMatches, this`nLiterals, this`dst, this`full, this`start, triples, literals
      ensures Sized() && Good()
      ensures ok ==> nMatches == 0 && nLiterals == 0 && full == old(full)
      ensures ok ==> |dst| <= |old(dst)| + BLOCK_EXTRA + 2 * old(nLiterals) + 8 * old(nMatches)
      ensures |old(dst)| + BLOCK_ROOM + 2 * old(nLiterals) + 8 * old(nMatches) <= capacity ==> ok
      ensures !ok ==> full && nMatches == old(nMatches) && nLiterals == old(nLiterals) && dst == old(dst)
      ensures !ok ==>
        triples[..nMatches] == old(triples[..nMatches]) && literals[..nLiterals] == old(literals[..nLiterals])
    {
      hide Describes, Leads, Delta, Replay, LzfseCodec.Codable, LzfseCodec.V2Bytes, LzfseCodec.FittedBytes;
      if nLiterals == 0 && nMatches == 0 {
        return true;
      }
      var nLiterals0 := nLiterals;
      ghost var ts, lits := triples[..nMatches], literals[..nLiterals];
      Distances(src, start, ts, lits, srcLiteral);
      PadLiterals();
      RewriteDistances(triples, nMatches);
      var block := Block(triples[..nMatches], literals[..nLiterals]);
      BlockReplays(src, start, ts, lits, srcLiteral, block);
      var fits, bytes := LzfseCodec.EncodeBlock(block, dst, capacity);
      if fits {
        LeadsV2(dst, src[..start], bytes, block, src[..srcLiteral]);
        EmptyDescribes(src, srcLiteral);
        dst := dst + bytes;
        nLiterals, nMatches, start := 0, 0, srcLiteral;
        assert triples[..0] == [] && literals[..0] == [];
        return true;
      }
      RevertDistances(triples, nMatches, ts);
      assert literals[..nLiterals0] == literals[..nLiterals][..nLiterals0] == lits;
      nLiterals, full := nLiterals0, true;
      return false;
    }

    /** `lzfse_backend_match`: the match is taken, unless the destination is full. */
    method BackendMatch(m: Match) returns (ok: bool)
      requires Sized() && Good() && Usable(src, srcLiteral, m)
      modifies this`nMatches, this`nLiterals, this`srcLiteral, this`dst, this`full, this`start, triples, literals
      ensures Sized() && Good()
      ensures ok ==> srcLiteral == m.pos + m.length && full == old(full)
      ensures ok ==> Cost() <= old(Cost()) + MatchCost(m.pos - old(srcLiteral), m.length)
      ensures old(Cost()) + BLOCK_ROOM <= capacity ==> ok
      ensures !ok ==> full && srcLiteral == old(srcLiteral)
    {
      hide Encoder.Good, Parts, Repeats;
      ok := PushMatch(m);
      if !ok {
        Crowded(nMatches, nLiterals, m.pos - srcLiteral, m.length);
        ok := EncodeMatches();
        if ok {
          FitsEmpty(m.pos - srcLiteral, m.length);
          ok := PushMatch(m);
        }
      }
    }

    /** `lzfse_backend_literals`. */
    method BackendLiterals(n: nat) returns (ok: bool)
      requires Sized() && Good() && 0 < n <= BACKLOG + 10 && srcLiteral + n <= |src|
      modifies this`nMatches, this`nLiterals, this`srcLiteral, this`dst, this`full, this`start, triples, literals
      ensures Sized() && Good()
      ensures ok ==> srcLiteral == old(srcLiteral) + n && full == old(full)
      ensures ok ==> Cost() <= old(Cost()) + MatchCost(n, 0)
      ensures old(Cost()) + BLOCK_ROOM <= capacity ==> ok
      ensures !ok ==> full && srcLiteral == old(srcLiteral)
    {
      hide Encoder.Good;
      var pos := srcLiteral + n;
      ok := BackendMatch(Match(pos, pos - 1, 0));
    }

    /** The whole state: also the pending match, the history table, and how far the search is ahead. */
    ghost predicate Valid()
      reads this, triples, literals, table
    {
      && Sized() && Good() && |src| < 0x8000_0000
      && table.Length == LZFSE_HASH_VALUES &&
        (forall h :: 0 <= h < table.Length ==> HistoryOk(src, srcEncode, table[h]))
      && Holds(pending)
      && srcEncode <= srcLiteral + BACKLOG + (if pending.length > 0 then 2 else 1)
    }

    constructor (src: seq<byte>, capacity: nat)
      requires |src| < 0x8000_0000
      ensures Valid() && this.src == src && this.capacity == capacity && srcEncode == 0 && !full && Afforded()
      ensures fresh(table) && fresh(triples) && fresh(literals)
    {
      this.src, this.capacity := src, capacity;
      srcEncode, srcLiteral, pending, nMatches, nLiterals, dst, full, start := 0, 0, NONE, 0, 0, [], false, 0;
      var line := HistorySet([-4 * MAX_D, -4 * MAX_D, -4 * MAX_D, -4 * MAX_D], [0, 0, 0, 0]);
      table := new HistorySet[LZFSE_HASH_VALUES](_ => line);
      triples := new Triple[MATCHES_PER_BLOCK](_ => Triple(0, 0, 0));
      literals := new byte[LITERALS_PER_BLOCK](_ => 0);
      new;
      assert forall h :: 0 <= h < table.Length ==> table[h] == line;
      assert triples[..0] == [] && literals[..0] == [] && src[..0] == [];
      LeadsNothing();
    }

    /** A match that may be held back at the search position. */
    ghost predicate Holds(m: Match)
      reads this`srcEncode, this`srcLiteral
    {
      m.length > 0 ==> m.length >= 4 && m.pos <= srcEncode && Usable(src, srcLiteral, m)
    }

    /** Emits a match, and `keep` is held back from then on. */
    method EmitAndKeep(m: Match, keep: Match) returns (ok: bool)
      requires Sized() && Good() && Usable(src, srcLiteral, m) && Holds(pending)
      requires keep.length > 0 ==> keep.length >= 4 && keep.pos <= srcEncode && Usable(src, m.pos + m.length, keep)
      modifies this`nMatches, this`nLiterals, this`srcLiteral, this`pending, this`dst, this`full, this`start, triples,
        literals
      ensures Sized() && Good() && Holds(pending)
      ensures ok ==> pending == keep && full == old(full) && Emitted(m, old(Now()), Now())
      ensures !ok ==> full && pending == old(pending) && srcLiteral == old(srcLiteral)
      ensures old(Cost()) + BLOCK_ROOM <= capacity ==> ok
    {
      hide Describes, Leads, Repeats, Parts;
      ok := BackendMatch(m);
      if ok { pending := keep; }
    }

    /** No match was found: what is waiting is emitted once it is too much. */
    method ResolveNone() returns (ok: bool)
      requires Sized() && Good() && Holds(pending) && srcLiteral <= srcEncode && srcEncode + 8 < |src|
      requires srcEncode <= srcLiteral + BACKLOG + (if pending.length > 0 then 2 else 1)
      modifies this`nMatches, this`nLiterals, this`srcLiteral, this`pending, this`dst, this`full, this`start, triples,
        literals
      ensures Sized() && Good() && Holds(pending)
      ensures ok ==> full == old(full) && Reacts(srcEncode, NONE, old(Now()), Now())
      ensures !ok ==> full && pending == old(pending) && srcLiteral == old(srcLiteral)
      ensures old(Cost()) + BLOCK_ROOM <= capacity ==> ok
    {
      hide Describes, Leads, Repeats, Parts;
      ok := true;
      if srcEncode - srcLiteral > BACKLOG {
        if pending.length > 0 {
          ok := EmitAndKeep(pending, NONE);
        } else {
          ok := BackendLiterals(MAX_L);
        }
      }
    }

    /** Decides what to do with the incoming match, or with none, at the search position. */
    method Resolve(incoming: Match) returns (ok: bool)
      requires Valid() && srcLiteral <= srcEncode && srcEncode + 8 < |src| && Holds(incoming)
      modifies this`nMatches, this`nLiterals, this`srcLiteral, this`pending, this`dst, this`full, this`start, triples,
        literals
      ensures Sized() && Good() && Holds(pending) && (!ok ==> full) && (ok ==> full == old(full))
      ensures ok ==> srcEncode + 1 <= srcLiteral + BACKLOG + (if pending.length > 0 then 2 else 1)
      ensures ok ==> Reacts(srcEncode, incoming, old(Now()), Now())
      ensures old(Cost()) + BLOCK_ROOM <= capacity ==> ok
      ensures !ok ==> Valid()
    {
      hide Encoder.Good, Repeats, HistoryOk, MatchCost;
      ok := true;
      if incoming.length == 0 {
        ok := ResolveNone();
      } else if incoming.length >= GOOD_MATCH {
        ok := EmitAndKeep(incoming, NONE);
      } else if pending.length == 0 {
        pending := incoming;
      } else if pending.pos + pending.length <= incoming.pos {
        ok := EmitAndKeep(pending, incoming);
      } else if incoming.length > pending.length {
        ok := EmitAndKeep(incoming, NONE);
      } else {
        ok := EmitAndKeep(pending, NONE);
      }
    }

    /** One position of the search loop, up to the table update; false when the destination is full. */
    method Look(h: HistorySet, x: nat) returns (ok: bool)
      requires Valid() && srcEncode + 8 < |src| && HistoryOk(src, srcEncode, h) && x == Load4(src, srcEncode)
      modifies this`nMatches, this`nLiterals, this`srcLiteral, this`pending, this`dst, this`full, this`start, triples,
        literals
      ensures Sized() && Good() && (!ok ==> full) && (ok ==> full == old(full))
      ensures Holds(pending)
      ensures ok ==> srcEncode + 1 <= srcLiteral + BACKLOG + (if pending.length > 0 then 2 else 1)
      ensures old(Cost()) + BLOCK_ROOM <= capacity ==> ok
      ensures ok ==> Step(src, srcEncode, h, x, old(Now()), Now())
      ensures !ok ==> Valid()
    {
      hide Describes, Leads, Repeats, HistoryOk, Load4, Finds, Reacts;
      ok := true;
      if srcEncode >= srcLiteral {
        var incoming := Incoming(src, srcEncode, srcLiteral, h, x);
        ok := Resolve(incoming);
      }
    }

    /** The position is pushed into its hash line, and the oldest entry drops out. */
    method Advance(line: nat, h: HistorySet, x: nat)
      requires Sized() && Good() && srcEncode + 8 < |src| < 0x8000_0000 && line < table.Length == LZFSE_HASH_VALUES
      requires forall k :: 0 <= k < table.Length ==> HistoryOk(src, srcEncode, table[k])
      requires HistoryOk(src, srcEncode, h) && x == Load4(src, srcEncode)
      requires Holds(pending)
      requires srcEncode + 1 <= srcLiteral + BACKLOG + (if pending.length > 0 then 2 else 1)
      modifies this`srcEncode, table
      ensures Valid() && srcEncode == old(srcEncode) + 1 && table[line] == Pushed(h, old(srcEncode), x)
    {
      hide Describes, Leads, Usable, Load4;
      var newH := Pushed(h, srcEncode, x);
      assert HistoryOk(src, srcEncode + 1, newH);
      forall k | 0 <= k < table.Length
        ensures HistoryOk(src, srcEncode + 1, table[k]) { Later(src, srcEncode, table[k]); }
      hide HistoryOk;
      table[line] := newH;
      srcEncode := srcEncode + 1;
    }

    /** What the search has cost: never much, and next to nothing for a source of one repeated byte. */
    ghost predicate Afforded()
      reads this, table
    {
      && Cost() <= 12 * srcLiteral
      && (Constant(src) && |src| >= 64 ==>
            && Steady(|src|, srcEncode, Now()) && table.Length == LZFSE_HASH_VALUES
            && (srcEncode > 0 ==> Recent(table[HashX(Load4(src, 0))], srcEncode, Load4(src, 0))))
    }

    /** One position of the search loop; false when the destination is full. */
    method Turn() returns (ok: bool)
      requires Valid() && !full && Afforded() && srcEncode + 8 < |src|
      modifies this`nMatches, this`nLiterals, this`srcLiteral, this`srcEncode, this`pending, this`dst, this`full,
        this`start, triples, literals, table
      ensures Valid() && srcEncode == old(srcEncode) + (if ok then 1 else 0)
      ensures if ok then !full && Afforded() else full
      ensures Roomy(src, capacity) ==> ok
    {
      hide Encoder.Good, Usable, HistoryOk, Load4, HashX, Step, Steady, Recent, Roomy, Constant;
      var x := Load4(src, srcEncode);
      var line := HashX(x);
      var h := table[line];
      assert HistoryOk(src, srcEncode, h);
      ghost var e, s := srcEncode, Now();
      if Roomy(src, capacity) { RoomLeft(src, capacity, e, s); }
      if Constant(src) { SameWords(src, e); }
      ok := Look(h, x);
      if ok {
        StepCost(src, e, h, x, s, Now());
        if Constant(src) && |src| >= 64 { SteadyStep(src, e, h, x, s, Now()); }
        Advance(line, h, x);
        PushedRecent(src, h, e, x);
      }
    }

    /** `lzfse_encode_base`. */
    method EncodeBase() returns (ok: bool)
      requires Valid() && !full && Afforded()
      modifies this`nMatches, this`nLiterals, this`srcLiteral, this`srcEncode, this`pending, this`dst, this`full,
        this`start, triples, literals, table
      ensures Valid() && (if ok then !full && srcEncode + 8 >= |src| && Afforded() else full)
      ensures Roomy(src, capacity) ==> ok
    {
      hide Encoder.Valid, Encoder.Afforded, Roomy;
      ok := true;
      while ok && srcEncode < |src| - 8
        invariant Valid() && (if ok then !full && Afforded() else full) && (Roomy(src, capacity) ==> ok)
        decreases |src| - srcEncode, ok
      {
        ok := Turn();
      }
    }

    /** The pending match and the last literals. */
    method Flush() returns (ok: bool)
      requires Valid() && !full && srcEncode + 8 >= |src|
      modifies this`nMatches, this`nLiterals, this`srcLiteral, this`pending, this`dst, this`full, this`start, triples,
        literals
      ensures Sized() && Good() && (if ok then !full && srcLiteral == |src| else full)
      ensures ok ==> Cost() <= old(Cost()) + 12 * (|src| - old(srcLiteral))
      ensures old(Cost()) + 12 * (|src| - old(srcLiteral)) + BLOCK_ROOM <= capacity ==> ok
    {
      hide Describes, Leads, Repeats, HistoryOk, Parts, MatchCost;
      ok := true;
      if pending.length > 0 {
        CostBound(pending.pos - srcLiteral, pending.length);
        ok := BackendMatch(pending);
        if !ok { return; }
        pending := NONE;
      }
      var n := |src| - srcLiteral;
      if n > 0 {
        CostBound(n, 0);
        ok := BackendLiterals(n);
      }
    }

    /** `lzfse_encode_finish`: the pending match, the last literals, the last block and the end of the stream. */
    method EncodeFinish() returns (ok: bool)
      requires Valid() && !full && srcEncode + 8 >= |src|
      modifies this`nMatches, this`nLiterals, this`srcLiteral, this`pending, this`dst, this`full, this`start, triples,
        literals
      ensures |dst| <= capacity && (ok ==> Stands(dst, [], src)) && (!ok ==> full)
      ensures var cost := old(Cost()) + 12 * (|src| - old(srcLiteral));
        (ok ==> |dst| <= cost + BLOCK_EXTRA + 4) && (cost + BLOCK_ROOM <= capacity ==> ok)
    {
      hide Describes, Leads, Repeats, HistoryOk, Stands;
      ok := Flush();
      if !ok { return; }
      ok := EncodeMatches();
      if ok {
        NothingStored(src, start, triples[..nMatches], literals[..nLiterals], srcLiteral);
        assert src[..|src|] == src;
        if |dst| + 4 > capacity {
          full := true;
          return false;
        }
        LeadsEnd(dst, src);
        dst := dst + Store4(ENDOFSTREAM_MAGIC);
      }
    }
  }

  // ---------- what a run costs ----------

  lemma CostBound(L: nat, M: nat)
    ensures MatchCost(L, M) <= 12 * (L + M)
  {
    PartsCover(L, M);
  }

  lemma StepCost(src: seq<byte>, e: nat, h: HistorySet, x: nat, s: Stage, s': Stage)
    requires Step(src, e, h, x, s, s') && s.cost <= 12 * s.lit
    ensures s'.cost <= 12 * s'.lit
  {
    hide Finds, MatchCost;
    if e >= s.lit {
      var incoming :| Finds(src, e, s.lit, h, x, incoming) && Reacts(e, incoming, s, s');
      var m := Emits(e, incoming, s);
      if m != NONE { CostBound(m.pos - s.lit, m.length); }
    }
  }

  /** The most that a source of `n` equal bytes costs up to the last 48. */
  function SteadyCost(n: nat): nat { 912 * (n / MAX_MATCH_LENGTH + 1) }

  /**
    Where the search stands at `e` in `n` equal bytes: from the second position on there is a match for
    all that is left, or for as much as a match can be, whenever the last one ends.
   */
  ghost predicate Steady(n: nat, e: nat, s: Stage) {
    if s.lit + 48 >= n then s.cost <= SteadyCost(n) + 12 * (s.lit + 48 - n)
    else
      && s.pending.length == 0
      && if s.lit == 0 then e <= 1 && s.cost == 0 else e <= s.lit && s.cost <= 912 * (s.lit / MAX_MATCH_LENGTH)
  }

  /** The newest entry of the line is the position before `now`. */
  ghost predicate Recent(h: HistorySet, now: nat, x: nat) {
    |h.pos| == |h.value| == 4 && h.pos[0] == now - 1 && h.value[0] == x
  }

  lemma PushedRecent(src: seq<byte>, h: HistorySet, e: nat, x: nat)
    requires HistoryOk(src, e, h)
    ensures Recent(Pushed(h, e, x), e + 1, x)
  {
  }

  lemma SameWords(src: seq<byte>, e: nat)
    requires Constant(src) && e + 4 <= |src|
    ensures Load4(src, e) == Load4(src, 0)
  {
    LzvnSearch.ConstantWord(src, e);
  }

  /** Room enough for any source, and for one of a repeated byte. */
  ghost predicate Roomy(src: seq<byte>, capacity: nat) {
    || capacity >= 12 * |src| + BLOCK_ROOM
    || (Constant(src) && |src| >= 64 && capacity >= SteadyCost(|src|) + 576 + BLOCK_ROOM)
  }

  lemma RoomLeft(src: seq<byte>, capacity: nat, e: nat, s: Stage)
    requires Roomy(src, capacity) && s.lit <= |src| && s.cost <= 12 * s.lit
    requires Constant(src) && |src| >= 64 ==> Steady(|src|, e, s)
    ensures s.cost + BLOCK_ROOM <= capacity
  {
    if Constant(src) && |src| >= 64 { SteadyBound(|src|, e, s); }
  }

  lemma SteadyBound(n: nat, e: nat, s: Stage)
    requires Steady(n, e, s) && s.lit <= n
    ensures s.cost <= SteadyCost(n) + 576
    ensures s.lit + 48 >= n ==> s.cost + 12 * (n - s.lit) <= SteadyCost(n) + 576
  {
  }

  lemma SteadyEnd(n: nat, e: nat, s: Stage)
    requires Steady(n, e, s) && s.lit <= n && e + 8 >= n >= 64
    ensures s.cost + 12 * (n - s.lit) <= SteadyCost(n) + 576
  {
  }

  lemma SteadyStep(src: seq<byte>, e: nat, h: HistorySet, x: nat, s: Stage, s': Stage)
    requires Constant(src) && |src| >= 64 && e + 8 < |src| && HistoryOk(src, e, h) && x == Load4(src, e)
    requires Step(src, e, h, x, s, s') && Steady(|src|, e, s) && (e > 0 ==> Recent(h, e, x))
    ensures Steady(|src|, e + 1, s')
  {
    hide HistoryOk, Load4, Finds, Reacts, Constant;
    if e >= s.lit {
      var incoming :| Finds(src, e, s.lit, h, x, incoming) && Reacts(e, incoming, s, s');
      if s.lit + 48 >= |src| {
        SteadyTail(|src|, e, s, s', incoming);
      } else if e == 0 {
        NoneAtStart(src, h, x, s, incoming);
        SteadyWaits(|src|, s, s', incoming);
      } else {
        SteadyMatch(src, e, h, x, s, incoming);
        SteadyJump(|src|, e, s, s', incoming);
      }
    }
  }

  lemma SteadyTail(n: nat, e: nat, s: Stage, s': Stage, incoming: Match)
    requires Steady(n, e, s) && s.lit + 48 >= n && Reacts(e, incoming, s, s')
    ensures Steady(n, e + 1, s')
  {
    hide MatchCost, SteadyCost;
    var m := Emits(e, incoming, s);
    if m != NONE { CostBound(m.pos - s.lit, m.length); }
  }

  lemma NoneAtStart(src: seq<byte>, h: HistorySet, x: nat, s: Stage, m: Match)
    requires HistoryOk(src, 0, h) && Finds(src, 0, s.lit, h, x, m)
    ensures m.length == 0
  {
    hide FromEntry, ReachesAtMost;
    forall k: nat | k < 4 ensures !Candidate(h, k, 0, x) {
      assert EntryOk(src, 0, h.pos[k], h.value[k]);
    }
  }

  lemma SteadyWaits(n: nat, s: Stage, s': Stage, incoming: Match)
    requires Steady(n, 0, s) && s.lit == 0 && s.lit + 48 < n && Reacts(0, incoming, s, s') && incoming.length == 0
    ensures Steady(n, 1, s')
  {
  }

  /** The match with the byte before goes on for all that is left, or as far as it may. */
  lemma SteadyMatch(src: seq<byte>, e: nat, h: HistorySet, x: nat, s: Stage, m: Match)
    requires Constant(src) && 0 < e && e + 8 < |src| && Recent(h, e, x) && Finds(src, e, s.lit, h, x, m) && e >= s.lit
    ensures m.length > 0 && 1 <= m.pos <= e && s.lit <= m.pos
    ensures var reach := m.pos + m.length - e;
      reach <= MAX_MATCH_LENGTH && (reach == MAX_MATCH_LENGTH || e + reach + 8 >= |src|)
  {
    assert Candidate(h, 0, e, x);
    hide Candidate;
    var reach := m.pos + m.length - e;
    var length :| MatchEnds(src, e, h.pos[0], length) && Capped(length) <= reach;
    var k: nat :| k < 4 && Candidate(h, k, e, x) && FromEntry(src, e, h.pos[k], m);
  }

  lemma SteadyJump(n: nat, e: nat, s: Stage, s': Stage, m: Match)
    requires Steady(n, e, s) && s.lit + 48 < n && n >= 64 && 0 < e && s.lit <= e && Reacts(e, m, s, s')
    requires m.length > 0 && 1 <= m.pos <= e && s.lit <= m.pos
    requires var reach := m.pos + m.length - e;
      reach <= MAX_MATCH_LENGTH && (reach == MAX_MATCH_LENGTH || e + reach + 8 >= n)
    ensures Steady(n, e + 1, s')
  {
    hide MatchCost, Parts;
    SteadyMatchCost(m.pos - s.lit, m.length);
    var k, l := s.lit / MAX_MATCH_LENGTH, s'.lit;
    assert s'.cost <= 912 * k + 912 && s'.pending.length == 0;
    if l + 48 >= n {
      assert k <= n / MAX_MATCH_LENGTH;
    } else {
      assert l == e + MAX_MATCH_LENGTH && l / MAX_MATCH_LENGTH == e / MAX_MATCH_LENGTH + 1 >= k + 1;
    }
  }

  lemma SteadyMatchCost(L: nat, M: nat)
    requires L <= 1 && M <= MAX_MATCH_LENGTH
    ensures MatchCost(L, M) <= 912
  {
    hide Parts;
    PartsBound(L, M);
  }

  /** A history line: positions before `now` with the words found there, or invalid positions. */
  ghost predicate HistoryOk(src: seq<byte>, now: nat, h: HistorySet) {
    && |h.pos| == |h.value| == 4
    && EntryOk(src, now, h.pos[0], h.value[0]) && EntryOk(src, now, h.pos[1], h.value[1])
    && EntryOk(src, now, h.pos[2], h.value[2]) && EntryOk(src, now, h.pos[3], h.value[3])
  }

  /** The line after one more position. */
  function Pushed(h: HistorySet, pos: nat, x: nat): HistorySet
    requires |h.pos| == |h.value| == 4
  {
    HistorySet([pos] + h.pos[..3], [x] + h.value[..3])
  }

  ghost predicate EntryOk(src: seq<byte>, now: nat, pos: int, value: nat) {
    pos == -4 * MAX_D || (0 <= pos < now && pos + 4 <= |src| && value == Load4(src, pos))
  }

  /** The match does not fit the block state. */
  ghost predicate TooMuch(n: nat, k: nat, L: nat, M: nat) {
    Parts(L, M) > 0 && (n + Parts(L, M) + 8 > MATCHES_PER_BLOCK || k + L + 16 > LITERALS_PER_BLOCK)
  }

  lemma PartsStep(L: nat, M: nat)
    ensures L > MAX_L ==> Parts(L, M) == 1 + Parts(L - MAX_L, M)
    ensures L <= MAX_L && M > MAX_M ==> Parts(L, M) == 1 + Parts(0, M - MAX_M)
    ensures L <= MAX_L && M <= MAX_M ==> Parts(L, M) == if L > 0 || M > 0 then 1 else 0
  {
  }

  lemma TrueBounds(src: seq<byte>, p: nat, t: Triple)
    requires TrueAt(src, p, t)
    ensures p + t.l + t.m <= |src|
  {
  }

  lemma {:induction false} PartsBound(L: nat, M: nat)
    ensures Parts(L, M) <= 1 + L / MAX_L + M / MAX_M
  {
    PartsStep(L, M);
    if L > MAX_L {
      PartsBound(L - MAX_L, M);
    } else if M > MAX_M {
      PartsBound(0, M - MAX_M);
    }
  }

  /** Whatever the search produces fits an empty block state. */
  lemma FitsEmpty(L: nat, M: nat)
    requires L <= BACKLOG + 10 && M <= MAX_MATCH_LENGTH + BACKLOG + 10
    ensures !TooMuch(0, 0, L, M)
  {
    PartsBound(L, M);
  }

  /** What a match adds to the cost. */
  ghost function MatchCost(L: nat, M: nat): nat { 3 * L + 9 * Parts(L, M) }

  lemma {:induction false} PartsCover(L: nat, M: nat)
    ensures Parts(L, M) <= L + M
  {
    PartsStep(L, M);
    if L > MAX_L {
      PartsCover(L - MAX_L, M);
    } else if M > MAX_M {
      PartsCover(0, M - MAX_M);
    }
  }

  /** A block that is written because the next match does not fit pays for itself. */
  lemma Crowded(n: nat, k: nat, L: nat, M: nat)
    requires TooMuch(n, k, L, M) && L <= BACKLOG + 10 && M <= MAX_MATCH_LENGTH + BACKLOG + 10
    ensures n + k >= BLOCK_EXTRA
  {
    PartsBound(L, M);
  }

  lemma EmptyDescribes(src: seq<byte>, p: nat)
    ensures Describes(src, p, [], [], p)
  {
  }

  lemma Distances(src: seq<byte>, p: nat, ts: seq<Triple>, lits: seq<byte>, q: nat)
    requires Describes(src, p, ts, lits, q)
    ensures forall i :: 0 <= i < |ts| ==> InRange(ts[i])
  {
    DescribesInRange(src, p, ts);
  }

  /** The block, as coded, can be coded, and takes the decoder from `src[..p]` to `src[..q]`. */
  lemma BlockReplays(src: seq<byte>, p: nat, ts: seq<Triple>, lits: seq<byte>, q: nat, block: Block)
    requires p <= |src| && Describes(src, p, ts, lits, q) && |ts| <= MATCHES_PER_BLOCK
    requires block.triples == Delta(ts, 0) && lits <= block.literals && |block.literals| <= LITERALS_PER_BLOCK &&
      |block.literals| % 4 == 0
    ensures q <= |src| && Replay(src[..p], block.triples, block.literals, 0) == Done(src[..q]) &&
      LzfseCodec.Codable(block)
  {
    hide Describes, Delta, Replay;
    var pad := block.literals[|lits|..];
    assert block.literals == lits + pad;
    DescribesReplay(src, p, ts, lits, q, pad, 0);
    Distances(src, p, ts, lits, q);
    ReplayDelta(src[..p], ts, lits + pad, 0);
    forall i | 0 <= i < |ts|
      ensures block.triples[i].l <= MaxValue(L) && block.triples[i].m <= MaxValue(M) &&
        block.triples[i].d <= MaxValue(D)
    {
      DeltaAt(ts, 0, i);
    }
  }

  lemma NothingStored(src: seq<byte>, p: nat, ts: seq<Triple>, lits: seq<byte>, q: nat)
    requires Describes(src, p, ts, lits, q) && |ts| == 0
    ensures p == q
  {
  }

  lemma Later(src: seq<byte>, now: nat, h: HistorySet)
    requires HistoryOk(src, now, h)
    ensures HistoryOk(src, now + 1, h)
  {
  }

  /** Knuth's multiplicative hash, on 32 bits. */
  function HashX(x: nat): (h: nat)
    requires x < 0x1_0000_0000
    ensures h < LZFSE_HASH_VALUES
  {
    (x * 2654435761) % 0x1_0000_0000 / 0x4_0000
  }

  // ---------- the match search ----------

  lemma FirstAndRest(src: seq<byte>, i: nat, k: nat)
    requires i + 1 + k <= |src|
    ensures src[i..i + (1 + k)] == [src[i]] + src[i + 1..i + 1 + k]
  {
  }

  /** How many of the first `n` bytes at `i` and `j` agree: for eight, the trailing zero bytes of the difference. */
  function Agree(src: seq<byte>, i: nat, j: nat, n: nat): (k: nat)
    requires i + n <= |src| && j + n <= |src|
    ensures k <= n && src[i..i + k] == src[j..j + k] && (k < n ==> src[i + k] != src[j + k])
    decreases n
  {
    if n == 0 || src[i] != src[j] then 0
    else
      var k := Agree(src, i + 1, j + 1, n - 1);
      FirstAndRest(src, i, k);
      FirstAndRest(src, j, k);
      1 + k
  }

  /** A match of `length` bytes that cannot be made longer, unless the end of the source is near. */
  ghost predicate MatchEnds(src: seq<byte>, pos: nat, ref: int, length: nat) {
    && 0 <= ref < pos && 4 <= length && pos + length <= |src| && Repeats(src, pos, length, pos - ref)
    && (pos + length + 8 >= |src| || src[pos + length] != src[ref + length])
  }

  /** How far the match of four bytes at `pos` and `ref` goes on. */
  method MatchLength(src: seq<byte>, pos: nat, ref: nat) returns (length: nat)
    requires ref < pos && pos + 8 < |src| && Repeats(src, pos, 4, pos - ref)
    ensures MatchEnds(src, pos, ref, length)
  {
    hide Repeats, Agree;
    length := 4;
    var maxLength := |src| - pos - 8;
    while length < maxLength
      invariant 4 <= length <= maxLength + 8 && pos + length <= |src| && Repeats(src, pos, length, pos - ref)
      decreases |src| - length
    {
      var n := Agree(src, ref + length, pos + length, 8);
      Extend(src, pos, length, pos - ref, n);
      length := length + n;
      if n != 8 {
        return;
      }
    }
  }

  lemma Extend(src: seq<byte>, pos: nat, length: nat, d: nat, n: nat)
    requires Repeats(src, pos, length, d) && pos + length + n <= |src|
    requires src[pos + length - d..pos + length - d + n] == src[pos + length..pos + length + n]
    ensures Repeats(src, pos, length + n, d)
  {
    LzvnSearch.RepeatsJoin(src, pos, length, n, d);
  }

  /** The `k`th entry of the line is near enough and its word is the one at `pos`. */
  ghost predicate Candidate(h: HistorySet, k: nat, pos: nat, x: nat)
    requires |h.pos| == |h.value| == 4 && k < 4
  {
    h.value[k] == x && h.pos[k] + MAX_D >= pos
  }

  /** How far ahead of `pos` a match is taken. */
  function Capped(length: nat): nat { if length > MAX_MATCH_LENGTH then MAX_MATCH_LENGTH else length }

  ghost predicate Reaches(src: seq<byte>, pos: nat, ref: int, reach: int) {
    exists length :: MatchEnds(src, pos, ref, length) && Capped(length) == reach
  }

  ghost predicate ReachesAtMost(src: seq<byte>, pos: nat, ref: int, reach: int) {
    exists length :: MatchEnds(src, pos, ref, length) && Capped(length) <= reach
  }

  /** `m` is the longest match for the candidates of the line, from as far back as it goes; none without candidates. */
  ghost predicate Finds(src: seq<byte>, pos: nat, lit: nat, h: HistorySet, x: nat, m: Match) {
    && |h.pos| == |h.value| == 4
    && (m.length == 0 ==> forall k: nat :: k < 4 ==> !Candidate(h, k, pos, x))
    && (m.length > 0 ==>
          var reach := m.pos + m.length - pos;
          && (exists k: nat :: k < 4 && Candidate(h, k, pos, x) && FromEntry(src, pos, h.pos[k], m))
          && (forall k: nat :: k < 4 && Candidate(h, k, pos, x) ==> ReachesAtMost(src, pos, h.pos[k], reach))
          && lit <= m.pos && (m.pos == lit || m.ref == 0 || (m.ref > 0 && src[m.pos - 1] != src[m.ref - 1])))
  }

  ghost predicate FromEntry(src: seq<byte>, pos: nat, ref: int, m: Match) {
    0 < m.pos <= pos && m.pos < |src| && m.ref < |src| && m.pos - m.ref == pos - ref &&
    Reaches(src, pos, ref, m.pos + m.length - pos)
  }

  lemma ReachMore(src: seq<byte>, pos: nat, ref: int, a: nat, b: nat)
    requires ReachesAtMost(src, pos, ref, Capped(a)) && a <= b
    ensures ReachesAtMost(src, pos, ref, Capped(b))
  {
    var length :| MatchEnds(src, pos, ref, length) && Capped(length) <= Capped(a);
  }

  /** No candidate among the first `k` goes further than `length`, the length for `best`; 0 without candidates. */
  ghost predicate BestOf(src: seq<byte>, pos: nat, h: HistorySet, x: nat, k: nat, best: nat, length: nat)
    requires |h.pos| == |h.value| == 4 && k <= 4
  {
    if length == 0 then forall i: nat :: i < k ==> !Candidate(h, i, pos, x)
    else
      && best < k && Candidate(h, best, pos, x) && MatchEnds(src, pos, h.pos[best], length)
      && forall i: nat :: i < k && Candidate(h, i, pos, x) ==> ReachesAtMost(src, pos, h.pos[i], Capped(length))
  }

  /** One more candidate, which goes on for `n`. */
  lemma BestMore(src: seq<byte>, pos: nat, h: HistorySet, x: nat, k: nat, best: nat, length: nat, n: nat)
    requires |h.pos| == |h.value| == 4 && k < 4 && BestOf(src, pos, h, x, k, best, length)
    requires Candidate(h, k, pos, x) && MatchEnds(src, pos, h.pos[k], n)
    ensures if n > length then BestOf(src, pos, h, x, k + 1, k, n) else BestOf(src, pos, h, x, k + 1, best, length)
  {
    hide Repeats, Candidate;
    assert ReachesAtMost(src, pos, h.pos[k], Capped(n));
    if n > length > 0 {
      forall i: nat | i < k && Candidate(h, i, pos, x) ensures ReachesAtMost(src, pos, h.pos[i], Capped(n)) {
        ReachMore(src, pos, h.pos[i], length, n);
      }
    } else if n <= length {
      ReachMore(src, pos, h.pos[k], n, length);
    }
  }

  /** The candidate that goes furthest, the first of them if several do. */
  method BestCandidate(src: seq<byte>, pos: nat, h: HistorySet, x: nat) returns (length: nat, ref: int, ghost best: nat)
    requires pos + 8 < |src| && HistoryOk(src, pos, h) && x == Load4(src, pos)
    ensures BestOf(src, pos, h, x, 4, best, length) && (length > 0 ==> best < 4 && ref == h.pos[best])
  {
    hide Repeats, Load4, MatchEnds, BestOf;
    length, ref, best := 0, 0, 0;
    BestOfNone(src, pos, h, x);
    for k := 0 to 4
      invariant BestOf(src, pos, h, x, k, best, length) && (length > 0 ==> best < 4 && ref == h.pos[best])
    {
      BestSame(src, pos, h, x, k, best, length);
      if h.value[k] == x && !(h.pos[k] + MAX_D < pos) {
        assert EntryOk(src, pos, h.pos[k], h.value[k]);
        SameWord(src, h.pos[k], pos);
        var n := MatchLength(src, pos, h.pos[k]);
        BestMore(src, pos, h, x, k, best, length, n);
        if n > length {
          length, ref, best := n, h.pos[k], k;
        }
      }
    }
  }

  lemma BestOfNone(src: seq<byte>, pos: nat, h: HistorySet, x: nat)
    requires |h.pos| == |h.value| == 4
    ensures BestOf(src, pos, h, x, 0, 0, 0)
  {
  }

  lemma BestSame(src: seq<byte>, pos: nat, h: HistorySet, x: nat, k: nat, best: nat, length: nat)
    requires |h.pos| == |h.value| == 4 && k < 4 && BestOf(src, pos, h, x, k, best, length)
    ensures !Candidate(h, k, pos, x) ==> BestOf(src, pos, h, x, k + 1, best, length)
  {
    hide MatchEnds, ReachesAtMost, Candidate;
  }

  /** The longest match among the four candidates of a hash line, extended backwards; length 0 if there is none. */
  method Incoming(src: seq<byte>, pos: nat, lit: nat, h: HistorySet, x: nat) returns (m: Match)
    requires pos + 8 < |src| && HistoryOk(src, pos, h) && x == Load4(src, pos) && lit <= pos <= lit + BACKLOG + 2
    ensures m.length > 0 ==> m.length >= 4 && m.pos <= pos && Usable(src, lit, m)
    ensures Finds(src, pos, lit, h, x, m)
  {
    hide Repeats, Load4;
    var length, ref, best := BestCandidate(src, pos, h, x);
    m := Match(pos, 0, 0);
    if length > 0 {
      assert Reaches(src, pos, ref, Capped(length));
      if length > MAX_MATCH_LENGTH {
        RepeatsSplit(src, pos, MAX_MATCH_LENGTH, length, pos - ref);
        length := MAX_MATCH_LENGTH;
      }
      m := ExpandBack(src, pos, ref, length, lit);
      assert FromEntry(src, pos, h.pos[best], m);
    }
  }

  lemma SameWord(src: seq<byte>, i: nat, j: nat)
    requires i < j && i + 4 <= |src| && j + 4 <= |src| && Load4(src, i) == Load4(src, j)
    ensures Repeats(src, j, 4, j - i)
  {
    LzvnSearch.MatchingBytesAgree(src, i, j);
  }

  /** The backward extension, not past `lit`. */
  method ExpandBack(src: seq<byte>, pos: nat, ref: nat, length: nat, lit: nat) returns (m: Match)
    requires lit <= pos <= lit + BACKLOG + 2 && ref < pos <= ref + MAX_D && pos + length <= |src|
    requires 4 <= length <= MAX_MATCH_LENGTH && Repeats(src, pos, length, pos - ref)
    ensures m.length >= length && m.pos <= pos && Usable(src, lit, m)
    ensures m.pos + m.length == pos + length && m.pos - m.ref == pos - ref
    ensures m.pos == lit || m.ref == 0 || src[m.pos - 1] != src[m.ref - 1]
  {
    hide Repeats;
    var p, r := pos, ref;
    while p > lit && r > 0 && src[r - 1] == src[p - 1]
      invariant lit <= p <= pos && 0 <= r && p - r == pos - ref
      invariant Repeats(src, p, length + (pos - p), pos - ref)
      decreases p
    {
      LzvnSearch.ExtendBack(src, p, length + (pos - p), pos - ref);
      p, r := p - 1, r - 1;
    }
    m := Match(p, r, length + (pos - p));
  }

  /** The LZFSE encoder as a whole: what it writes stands for the source, unless the destination was too small. */
  method EncodeLzfse(src: seq<byte>, capacity: nat) returns (ok: bool, dst: seq<byte>)
    requires |src| < 0x8000_0000
    ensures ok ==> |dst| <= capacity && Stands(dst, [], src) && |dst| <= 12 * |src| + BLOCK_EXTRA + 4
    ensures ok && Constant(src) && |src| >= 64 ==> |dst| <= SteadyCost(|src|) + 576 + BLOCK_EXTRA + 4
    ensures Roomy(src, capacity) ==> ok
  {
    hide Stands, Steady, Constant, SteadyCost;
    var encoder := new Encoder(src, capacity);
    ok := encoder.EncodeBase();
    if ok {
      if Constant(src) && |src| >= 64 { SteadyEnd(|src|, encoder.srcEncode, encoder.Now()); }
      ok := encoder.EncodeFinish();
    }
    dst := encoder.dst;
  }
}
