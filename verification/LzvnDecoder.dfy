/** The LZVN decoder: a resumable opcode machine writing into a destination buffer. */
module LzvnDecoder {
  import opened Bytes
  import opened LzvnFormat

  class Decoder {
    const src: seq<byte>   // the bytes up to src_end
    var srcPos: nat        // next byte to read
    const dst: array<byte> // destination, dst_begin at index 0
    var dstPos: nat        // next byte to write
    var dstEnd: nat        // first byte not to write; moved by the caller between calls
    var L: nat             // partially expanded instruction, or 0, 0, 0
    var M: nat
    var D: nat
    var dPrev: nat         // last match distance, or 0
    var endOfStream: bool

    ghost predicate Valid()
      reads this
    {
      && srcPos <= |src|
      && dstPos <= dstEnd <= dst.Length
      && dPrev <= dstPos
      && (Pending() ==> L < |src| - srcPos && !endOfStream)
      && (M > 0 && L > 0 ==> L <= 3)
      && (Pending() && (M == 0 || L == 0) ==> D <= dstPos)
    }

    ghost predicate Pending()
      reads this
    {
      L != 0 || M != 0
    }

    ghost function Output(): seq<byte>
      reads this, dst
      requires dstPos <= dst.Length
    {
      dst[..dstPos]
    }

    /** What decoding from the present state, with no limit on the destination, would produce. */
    ghost function Meaning(): Expansion
      reads this, dst
      requires Valid()
    {
      if endOfStream then Ended(Output(), src[srcPos..])
      else if Pending() then After(Execute(src[srcPos..], Output(), 0, L, M, D, L == 0))
      else Expand(src[srcPos..], Output(), dPrev)
    }

    /** A state that reads `src` from its start and appends to the `dstPos` bytes already in `dst`. */
    constructor (src: seq<byte>, dst: array<byte>, dstPos: nat, dstEnd: nat)
      requires dstPos <= dstEnd <= dst.Length
      ensures Valid() && this.src == src && this.dst == dst
      ensures srcPos == 0 && this.dstPos == dstPos && this.dstEnd == dstEnd && !endOfStream && !Pending()
      ensures Meaning() == Expand(src, dst[..dstPos], 0)
    {
      this.src, srcPos := src, 0;
      this.dst, this.dstPos, this.dstEnd := dst, dstPos, dstEnd;
      L, M, D, dPrev, endOfStream := 0, 0, 0, 0, false;
      new;
      assert src[0..] == src;
    }

    /** `store8(&dst[to], load8(from))` from the source buffer. */
    method Load8(to: nat, from: nat)
      requires to + 8 <= dst.Length && from + 8 <= |src|
      modifies dst
      ensures forall i :: 0 <= i < dst.Length ==>
        dst[i] == if to <= i < to + 8 then src[from + i - to] else old(dst[i])
    {
      forall i | to <= i < to + 8 { dst[i] := src[from + i - to]; }
    }

    /** `store8(&dst[to], load8(&dst[from]))` inside the destination. */
    method Move8(to: nat, from: nat)
      requires to + 8 <= dst.Length && from + 8 <= dst.Length
      modifies dst
      ensures forall i :: 0 <= i < dst.Length ==>
        dst[i] == if to <= i < to + 8 then old(dst[from + i - to]) else old(dst[i])
    {
      forall i | to <= i < to + 8 { dst[i] := dst[from + i - to]; }
    }

    /**
      Copies a literal of `len` bytes, or as much as fits. `small` selects the four-byte store
      of the literal-and-match opcodes, otherwise eight bytes are moved at a time when there is room.
     */
    method CopyLiteral(s: nat, d: nat, len: nat, small: bool) returns (n: nat)
      requires s + len < |src| && d <= dstEnd <= dst.Length
      requires small ==> len <= 3
      modifies dst
      ensures n == if len <= dstEnd - d then len else dstEnd - d
      ensures dst[..d + n] == old(dst[..d]) + src[s..s + n]
      ensures dst[dstEnd..] == old(dst[dstEnd..])
    {
      var dstLen, srcLen := dstEnd - d, |src| - s;
      n := if len <= dstLen then len else dstLen;
      if small && dstLen >= 4 && srcLen >= 4 {
        forall i | d <= i < d + 4 { dst[i] := src[s + i - d]; }
      } else if !small && dstLen >= len + 7 && srcLen >= len + 7 {
        var i := 0;
        while i < len
          invariant i <= len + 7
          invariant forall k :: 0 <= k < d || dstEnd <= k < dst.Length ==> dst[k] == old(dst[k])
          invariant forall k :: d <= k < d + i ==> dst[k] == src[s + k - d]
        {
          Load8(d + i, s + i);
          i := i + 8;
        }
      } else {
        for i := 0 to n
          invariant forall k :: 0 <= k < d || dstEnd <= k < dst.Length ==> dst[k] == old(dst[k])
          invariant forall k :: d <= k < d + i ==> dst[k] == src[s + k - d]
        {
          dst[d + i] := src[s + i];
        }
      }
    }

    /** Copies a match of `len` bytes at distance `dist`, or as much as fits. */
    method CopyMatchBytes(d: nat, len: nat, dist: nat) returns (n: nat)
      requires d <= dstEnd <= dst.Length && dist <= d
      modifies dst
      ensures n == if len <= dstEnd - d then len else dstEnd - d
      ensures dst[..d] == old(dst[..d])
      ensures dist > 0 ==> dst[..d + n] == CopyMatch(old(dst[..d]), dist, n)
      ensures dst[dstEnd..] == old(dst[dstEnd..])
    {
      hide CopyMatch;
      var dstLen := dstEnd - d;
      n := if len <= dstLen then len else dstLen;
      if dstLen >= len + 7 && dist >= 8 {
        var i := 0;
        while i < len
          invariant i <= len + 7
          invariant forall k :: 0 <= k < d || dstEnd <= k < dst.Length ==> dst[k] == old(dst[k])
          invariant forall k :: d <= k < d + i ==> dst[k] == dst[k - dist]
        {
          Move8(d + i, d + i - dist);
          i := i + 8;
        }
      } else {
        for i := 0 to n
          invariant forall k :: 0 <= k < d || dstEnd <= k < dst.Length ==> dst[k] == old(dst[k])
          invariant forall k :: d <= k < d + i ==> dst[k] == dst[k - dist]
        {
          dst[d + i] := dst[d + i - dist];
        }
      }
      if dist > 0 {
        CopyMatchPointwise(old(dst[..d]), dist, n, dst[..d + n]);
      }
    }

    /** Copies a literal; when the destination is too short, saves the rest of the instruction. */
    method LiteralPart(s: nat, d: nat, len: nat, mlen: nat, dist: nat) returns (ok: bool)
      requires Valid() && !Pending() && !endOfStream
      requires s + len < |src| && dstPos <= d <= dstEnd
      requires mlen > 0 ==> len <= 3
      requires mlen == 0 ==> dist <= d
      modifies this, dst
      ensures Valid() && dstEnd == old(dstEnd) && !endOfStream && dst[dstEnd..] == old(dst[dstEnd..])
      ensures dst[..d] == old(dst[..d])
      ensures ok ==> unchanged(this) && d + len <= dstEnd && dst[..d + len] == old(dst[..d]) + src[s..s + len]
      ensures !ok ==> Pending() && dstPos == dstEnd < d + len
      ensures !ok ==> Meaning() == After(Execute(src[s..], old(dst[..d]), 0, len, mlen, dist, false))
    {
      hide Expand, CopyMatch;
      ghost var out := dst[..d];
      var n := CopyLiteral(s, d, len, mlen > 0);
      assert dst[..d] == dst[..d + n][..d];
      ok := n == len;
      if !ok {
        ghost var e := Execute(src[s..], out, 0, len, mlen, dist, false);
        assert e == Execute(src[s + n..], dst[..d + n], 0, len - n, mlen, dist, false) by {
          ExecuteSplitLiteral(src[s..], out, n, len, mlen, dist);
          assert src[s..][n..] == src[s + n..];
          assert src[s..][..n] == src[s..s + n];
        }
        srcPos, dstPos, L, M, D := s + n, d + n, len - n, mlen, dist;
      }
    }

    /** Copies a match; when the destination is too short, saves the rest of it. */
    method MatchPart(s: nat, d: nat, mlen: nat, dist: nat) returns (ok: bool)
      requires Valid() && !Pending() && !endOfStream
      requires s < |src| && dstPos <= d <= dstEnd && dist <= d && mlen > 0
      modifies this, dst
      ensures Valid() && dstEnd == old(dstEnd) && !endOfStream && dst[dstEnd..] == old(dst[dstEnd..])
      ensures dst[..d] == old(dst[..d])
      ensures ok ==> unchanged(this) && d + mlen <= dstEnd
      ensures ok && dist > 0 ==> dst[..d + mlen] == CopyMatch(old(dst[..d]), dist, mlen)
      ensures !ok ==> Pending() && dstPos == dstEnd < d + mlen
      ensures !ok && dist > 0 ==> Meaning() == After(Execute(src[s..], old(dst[..d]), 0, 0, mlen, dist, true))
    {
      hide Expand, CopyMatch;
      ghost var out := dst[..d];
      var n := CopyMatchBytes(d, mlen, dist);
      ok := n == mlen;
      if !ok {
        srcPos, dstPos, L, M, D := s, d + n, 0, mlen - n, dist;
        if dist > 0 {
          ExecuteSplitMatch(src[s..], out, n, mlen, dist);
        }
      }
    }

    /**
      Carries out one instruction whose opcode has been read. When the destination is too short
      the rest of the instruction is saved in `L`, `M`, `D`; a bad distance leaves the state alone.
     */
    method Perform(s: nat, d: nat, len: nat, mlen: nat, dist: nat, bare: bool)
      returns (ok: bool, d': nat)
      requires Valid() && !Pending() && !endOfStream
      requires s + len < |src| && dstPos <= d <= dstEnd
      requires mlen > 0 ==> len <= 3
      requires mlen == 0 || bare ==> dist <= d
      requires bare ==> len == 0
      modifies this, dst
      ensures Valid() && dstEnd == old(dstEnd) && !endOfStream && dst[dstEnd..] == old(dst[dstEnd..])
      ensures dst[..d] == old(dst[..d])
      ensures var e := Execute(src[s..], old(dst[..d]), 0, len, mlen, dist, bare);
        if ok then
          && unchanged(this) && !e.Reject?
          && d' == d + len + mlen <= dstEnd
          && (mlen > 0 ==> dist <= d')
          && (e.Next? ==> dst[..d'] == e.out)
        else
          || (unchanged(this) && e.Reject?)
          || (Pending() && dstPos == dstEnd < d + len + mlen && (e.Stale? || Meaning() == After(e)))
    {
      hide Expand, CopyMatch;
      ghost var s0, out := src[s..], dst[..d];
      assert s0[0..0 + len] == src[s..s + len];
      ok, d' := true, d;
      if !bare {
        ok := LiteralPart(s, d, len, mlen, dist);
        if !ok { return; }
        d' := d + len;
        if mlen > 0 && (dist > d' || dist == 0) {
          return false, d';
        }
      }
      if mlen > 0 {
        assert s0[len..] == src[s + len..];
        assert dst[..d'] == out + s0[..len];
        if dist > 0 {
          ExecuteLiteralThenMatch(s0, out, len, mlen, dist);
        }
        ok := MatchPart(s + len, d', mlen, dist);
        assert dst[..d] == dst[..d'][..d];
        d' := d' + mlen;
      }
    }

    /** Where the state can stand after `Instruction` when it stopped before finishing. */
    ghost predicate Stopped(e: Effect, d: nat)
      reads this, dst
      requires Valid()
    {
      if endOfStream then e == Stop(src[srcPos..]) && dstPos == d
      else if Pending() then
        && dstPos == dstEnd
        && (e.Stale? || (!e.Stop? && Meaning() == After(e)))
        && (e.Next? ==> dstEnd < |e.out|)
      else e.Reject?
    }

    /** Reads the opcode at `s` and carries it out. */
    method Instruction(s: nat, d: nat, dist: nat) returns (more: bool, s': nat, d': nat, dist': nat)
      requires Valid() && !Pending() && !endOfStream
      requires s < |src| && dstPos <= d <= dstEnd && dist <= d
      modifies this, dst
      ensures Valid() && dstEnd == old(dstEnd)
      ensures dst[..d] == old(dst[..d]) && dst[dstEnd..] == old(dst[dstEnd..])
      ensures more ==> !Pending() && !endOfStream && srcPos == s && dstPos == d <= d' && dPrev == dist
      ensures more ==> s < s' < |src| && d' <= dstEnd && dist' <= d'
      ensures more ==> var e := Step(src[s..], old(dst[..d]), dist);
        e.Stale? || e == Next(src[s'..], dst[..d'], dist')
      ensures !more ==> Stopped(Step(src[s..], old(dst[..d]), dist), d)
      ensures Parse(src[s..], dist).Undefined? ==> !more && unchanged(this)
      ensures !more && !Pending() && !endOfStream ==>
        unchanged(this) || (srcPos == s && dstPos == d && dPrev == dist)
    {
      hide CopyMatch, Parse, Expand, Execute;
      more, s', d', dist' := false, s, d, dist;
      var i := Parse(src[s..], dist);
      if i.EndOfStream? {
        srcPos, dstPos, dPrev, endOfStream := s + 8, d, dist, true;
        return;
      }
      if i.Undefined? || (i.Truncated? && src[s] == 6) {
        return;
      }
      srcPos, dstPos, dPrev := s, d, dist;
      if i.Truncated? {
        return;
      }
      if i.Nop? {
        more, s' := true, s + 1;
        return;
      }
      ExecuteSkip(src[s..], dst[..d], i.opcLen, i.L, i.M, i.D, i.bare);
      s', dist' := s + i.opcLen, i.D;
      assert src[s..][i.opcLen..] == src[s'..];
      assert src[s'..][0 + i.L..] == src[s' + i.L..];
      more, d' := Perform(s', d, i.L, i.M, i.D, i.bare);
      s' := s' + i.L;
    }

    /** Completes the instruction left over from the previous call, if there is one. */
    method FinishPending() returns (more: bool, s: nat, d: nat, dist: nat)
      requires Valid() && !endOfStream && srcPos < |src|
      modifies this, dst
      ensures Valid() && !endOfStream && dstEnd == old(dstEnd) && old(dstPos) <= dstPos
      ensures dst[..old(dstPos)] == old(dst[..dstPos]) && dst[dstEnd..] == old(dst[dstEnd..])
      ensures more || !Pending() ==> srcPos == old(srcPos) && dstPos == old(dstPos) && dPrev == old(dPrev)
      ensures more ==> !Pending() && s < |src| && dstPos <= d <= dstEnd && dist <= d
      ensures more ==> old(Meaning()).Unspecified? || Expand(src[s..], dst[..d], dist) == old(Meaning())
      ensures !old(Pending()) ==> more && s == srcPos && d == dstPos && dist == dPrev
      ensures !more && Pending() ==>
        dstPos == dstEnd && (old(Meaning()).Unspecified? || Meaning() == old(Meaning()))
      ensures !more && Pending() && old(Meaning()).Ended? ==> dstEnd < |old(Meaning()).out|
      ensures !more && !Pending() ==> old(Meaning()).Malformed?
    {
      hide CopyMatch, Parse, Step, Execute;
      more, s, d, dist := true, srcPos, dstPos, dPrev;
      if L != 0 || M != 0 {
        var len, mlen := L, M;
        dist := D;
        L, M, D := 0, 0, 0;
        assert src[s..][0 + len..] == src[s + len..];
        more, d := Perform(s, d, len, mlen, dist, len == 0);
        s := s + len;
      }
    }

    /**
      Decodes until the end-of-stream marker, an error, or the end of the destination.
      `Meaning` does not change: whatever the sizes of the destinations handed in, a run of
      calls writes the bytes that one call with enough room would write.
     */
    method Decode()
      requires Valid() && !endOfStream
      modifies this, dst
      ensures Valid() && dstEnd == old(dstEnd) && old(dstPos) <= dstPos
      ensures old(dstPos) == dstEnd ==> !endOfStream
      ensures dst[..old(dstPos)] == old(dst[..dstPos]) && dst[dstEnd..] == old(dst[dstEnd..])
      ensures old(Meaning()).Ended? ==> Meaning() == old(Meaning())
      ensures old(Meaning()).Ended? && !endOfStream ==> dstPos == dstEnd
      ensures old(Meaning()).Ended? && !endOfStream && old(dstPos) < dstEnd ==> dstEnd < |Meaning().out|
      ensures old(Meaning()).Malformed? ==> !endOfStream
      ensures old(Meaning()).Malformed? && !old(Pending()) ==> Meaning() == old(Meaning())
      ensures !old(Pending()) && old(Parse(src[srcPos..], dPrev)).Undefined? ==>
        srcPos == old(srcPos) && dstPos == old(dstPos) && !endOfStream
    {
      hide CopyMatch, Parse, Step, Execute;
      ExpandEmpty(Output(), dPrev);
      assert src[|src|..] == [];
      if srcPos == |src| || dstPos == dstEnd { return; }
      ghost var goal, clean, d0 := Meaning(), !Pending(), dstPos;
      ghost var stuck := !Pending() && Parse(src[srcPos..], dPrev).Undefined?;
      var more, s: nat, d: nat, dist: nat := FinishPending();
      if !more { return; }
      while true
        invariant Valid() && !Pending() && !endOfStream && dstEnd == old(dstEnd)
        invariant s < |src| && d0 <= dstPos <= d <= dstEnd && dist <= d
        invariant dst[..d0] == old(dst[..dstPos]) && dst[dstEnd..] == old(dst[dstEnd..])
        invariant !goal.Unspecified? ==> Expand(src[s..], dst[..d], dist) == goal
        invariant !old(Pending()) ==> clean
        invariant stuck ==> s == srcPos == old(srcPos) && dstPos == old(dstPos) && dist == old(dPrev)
        invariant clean && !goal.Unspecified? ==> Expand(src[srcPos..], Output(), dPrev) == goal
        decreases |src| - s
      {
        ghost var before := dst[..d];
        assert Output() == before[..dstPos];
        var s': nat, d': nat, dist': nat;
        more, s', d', dist' := Instruction(s, d, dist);
        assert dst[..d0] == dst[..d][..d0] == before[..d0];
        if !more {
          assert dstPos <= d ==> Output() == before[..dstPos];
          return;
        }
        clean := true;
        s, d, dist := s', d', dist';
      }
    }
  }

  /**
    Decodes `src` in several calls, the destination growing to `ends[0]`, `ends[1]`, and so on:
    the pieces join into the one expansion of the stream.
   */
  method DecodeInPieces(src: seq<byte>, dst: array<byte>, ends: seq<nat>) returns (n: nat, done: bool)
    requires forall i :: 0 <= i < |ends| ==> ends[i] <= dst.Length
    requires forall i, j :: 0 <= i < j < |ends| ==> ends[i] <= ends[j]
    requires Expand(src, [], 0).Ended?
    modifies dst
    ensures n <= dst.Length && dst[..n] <= Expand(src, [], 0).out
    ensures done ==> dst[..n] == Expand(src, [], 0).out
    ensures done <==> |ends| > 0 && ends[|ends| - 1] > 0 && |Expand(src, [], 0).out| <= ends[|ends| - 1]
    ensures |ends| > 0 && !done ==> n == ends[|ends| - 1]
  {
    hide Expand;
    var decoder := new Decoder(src, dst, 0, 0);
    assert dst[..0] == [];
    var i := 0;
    while i < |ends| && !decoder.endOfStream
      invariant i <= |ends|
      invariant decoder.Valid() && decoder.src == src && decoder.dst == dst
      invariant fresh(decoder)
      invariant decoder.dstEnd == if i == 0 then 0 else ends[i - 1]
      invariant decoder.Meaning() == Expand(src, [], 0)
      invariant !decoder.endOfStream ==> decoder.dstPos == decoder.dstEnd
      invariant !decoder.endOfStream && decoder.dstEnd > 0 ==> decoder.dstEnd < |decoder.Meaning().out|
      invariant decoder.endOfStream ==> i > 0 && decoder.dstEnd > 0
    {
      decoder.dstEnd := ends[i];
      decoder.Decode();
      i := i + 1;
    }
    n, done := decoder.dstPos, decoder.endOfStream;
  }
}
