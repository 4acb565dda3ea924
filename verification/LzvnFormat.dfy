/**
  The LZVN stream format: what one opcode means and what a whole stream expands to.
  Both the encoder and the decoder are proved against `Expand`.
 */
module LzvnFormat {
  import opened Bytes

  /**
    What the opcode at the head of a stream asks for: copy `L` literal bytes that follow the
    `opcLen` opcode bytes, then `M` bytes from distance `D`. `bare` marks the two opcodes that
    hold nothing but a match length.
   */
  datatype Instr =
    | Op(opcLen: nat, L: nat, M: nat, D: nat, bare: bool)
    | Nop
    | EndOfStream
    | Undefined
    | Truncated

  /** The 256-entry jump table, folded into ranges: opcode `opc`, next bytes `b1`, `b2`, previous distance `D`. */
  function Dispatch(opc: byte, b1: byte, b2: byte, D: nat): (i: Instr)
    ensures !i.Truncated?
    ensures i.Op? ==> 1 <= i.opcLen <= 3 && i.L + i.M > 0
    ensures i.Op? && i.M > 0 ==> i.L <= 3
    ensures i.Op? && (i.M == 0 || i.bare) ==> i.D == D
    ensures i.Op? && i.bare ==> i.L == 0
  {
    var (o, c1, c2) := (opc as int, b1 as int, b2 as int);
    if o == 0xF0 then Op(2, 0, c1 + 16, D, true)                  // 11110000 MMMMMMMM
    else if o > 0xF0 then Op(1, 0, o - 0xF0, D, true)             // 1111MMMM
    else if o == 0xE0 then Op(2, c1 + 16, 0, D, false)            // 11100000 LLLLLLLL
    else if o > 0xE0 then Op(1, o - 0xE0, 0, D, false)            // 1110LLLL
    else if 0xA0 <= o < 0xC0 then                                 // 101LLMMM DDDDDDMM DDDDDDDD
      Op(3, (o / 8) % 4, (o % 8) * 4 + c1 % 4 + 3, c1 / 4 + 64 * c2, false)
    else if 0x70 <= o < 0x80 || 0xD0 <= o then Undefined
    else if o % 8 == 7 then                                       // LLMMM111 DDDDDDDD DDDDDDDD
      Op(3, o / 64, (o / 8) % 8 + 3, c1 + 256 * c2, false)
    else if o % 8 == 6 then
      if o >= 0x40 then Op(1, o / 64, (o / 8) % 8 + 3, D, false)  // LLMMM110
      else if o == 6 then EndOfStream
      else if o == 14 || o == 22 then Nop
      else Undefined
    else                                                          // LLMMMDDD DDDDDDDD
      Op(2, o / 64, (o / 8) % 8 + 3, (o % 8) * 256 + c1, false)
  }

  /** The instruction at the head of `s`, which must also hold its literal and one byte more. */
  function Parse(s: seq<byte>, D: nat): (i: Instr)
    ensures i.Op? ==> i.opcLen >= 1 && i.opcLen + i.L < |s| && i.L + i.M > 0
    ensures i.Op? && i.M > 0 ==> i.L <= 3
    ensures i.Op? && (i.M == 0 || i.bare) ==> i.D == D
    ensures i.Op? && i.bare ==> i.L == 0
    ensures i.EndOfStream? ==> |s| >= 8
    ensures i.Nop? ==> |s| >= 2
  {
    if s == [] then Truncated else
    var i := Dispatch(s[0], if |s| > 1 then s[1] else 0, if |s| > 2 then s[2] else 0, D);
    match i
    case Op(n, L, _, _, _) => if |s| <= n || |s| <= n + L then Truncated else i
    case Nop => if |s| <= 1 then Truncated else i
    case EndOfStream => if |s| < 8 then Truncated else i
    case _ => i
  }

  /** `out` followed by `M` bytes, each equal to the one `D` places before it. */
  function CopyMatch(out: seq<byte>, D: nat, M: nat): (r: seq<byte>)
    requires 0 < D <= |out|
    ensures |r| == |out| + M && out <= r
    decreases M
  {
    if M == 0 then out else CopyMatch(out + [out[|out| - D]], D, M - 1)
  }

  /** Every copied byte equals the one `D` places before it. */
  lemma {:induction false} CopyMatchRepeats(out: seq<byte>, D: nat, M: nat)
    requires 0 < D <= |out|
    ensures var r := CopyMatch(out, D, M); r[|out|..] == r[|out| - D..|r| - D]
    decreases M
  {
    if M > 0 {
      var next := out + [out[|out| - D]];
      var r := CopyMatch(next, D, M - 1);
      CopyMatchRepeats(next, D, M - 1);
      assert r[|out|] == next[|out|] == r[|out| - D];
      assert r[|out|..] == [r[|out|]] + r[|next|..];
      assert r[|out| - D..|r| - D] == [r[|out| - D]] + r[|next| - D..|r| - D];
    }
  }

  /** That property determines the result. */
  lemma {:induction false} CopyMatchUnique(out: seq<byte>, D: nat, M: nat, r: seq<byte>)
    requires 0 < D <= |out|
    requires |r| == |out| + M && out <= r
    requires r[|out|..] == r[|out| - D..|r| - D]
    ensures CopyMatch(out, D, M) == r
    decreases M
  {
    if M > 0 {
      var next := out + [out[|out| - D]];
      assert r[|out|] == r[|out|..][0] == r[|out| - D..|r| - D][0] == out[|out| - D];
      assert r[|next|..] == r[|out|..][1..] == r[|out| - D..|r| - D][1..] == r[|next| - D..|r| - D];
      CopyMatchUnique(next, D, M - 1, r);
    }
  }

  lemma CopyMatchPointwise(out: seq<byte>, D: nat, M: nat, r: seq<byte>)
    requires 0 < D <= |out|
    requires |r| == |out| + M && out <= r
    requires forall i :: |out| <= i < |r| ==> r[i] == r[i - D]
    ensures CopyMatch(out, D, M) == r
  {
    assert r[|out|..] == r[|out| - D..|r| - D];
    CopyMatchUnique(out, D, M, r);
  }

  /** A match may be copied in two parts. */
  lemma {:induction false} CopyMatchSplit(out: seq<byte>, D: nat, m: nat, n: nat)
    requires 0 < D <= |out|
    ensures CopyMatch(CopyMatch(out, D, m), D, n) == CopyMatch(out, D, m + n)
  {
    var a := CopyMatch(out, D, m);
    var r := CopyMatch(a, D, n);
    CopyMatchRepeats(out, D, m);
    CopyMatchRepeats(a, D, n);
    hide CopyMatch;
    forall i | |out| <= i < |r|
      ensures r[i] == r[i - D]
    {
      if i < |a| {
        assert a[i] == a[|out|..][i - |out|] == a[|out| - D..|a| - D][i - |out|] == a[i - D];
      } else {
        assert r[i] == r[|a|..][i - |a|] == r[|a| - D..|r| - D][i - |a|] == r[i - D];
      }
    }
    CopyMatchPointwise(out, D, m + n, r);
  }

  /**
    Result of expanding a stream: the whole output and the bytes left after the end marker;
    `Malformed` when the decoder must stop with an error; `Unspecified` when the stream repeats
    a match distance before any was set, which the decoder does not check.
   */
  datatype Expansion = Ended(out: seq<byte>, rest: seq<byte>) | Malformed | Unspecified

  /** Effect of one instruction: go on with a shorter stream, stop, reject, or copy stale bytes. */
  datatype Effect = Next(s: seq<byte>, out: seq<byte>, D: nat) | Stop(rest: seq<byte>) | Reject | Stale

  /**
    Copies `L` literal bytes that stand `n` bytes into `s`, then a match if `M > 0`. The distance
    is checked unless the instruction is a bare match.
   */
  function Execute(s: seq<byte>, out: seq<byte>, n: nat, L: nat, M: nat, D: nat, bare: bool): (e: Effect)
    requires n + L <= |s|
    ensures e.Next? ==> e.s == s[n + L..] && e.D == D && out <= e.out && |e.out| == |out| + L + M
    ensures !e.Stop?
  {
    var out' := out + s[n..n + L];
    if M == 0 then Next(s[n + L..], out', D)
    else if 0 < D <= |out'| then Next(s[n + L..], CopyMatch(out', D, M), D)
    else if D == 0 && bare then Stale
    else Reject
  }

  /** The instruction at the head of `s`. */
  function Step(s: seq<byte>, out: seq<byte>, D: nat): (e: Effect)
    ensures e.Next? ==> |e.s| < |s| && out <= e.out
  {
    match Parse(s, D)
    case Op(n, L, M, d, bare) => Execute(s, out, n, L, M, d, bare)
    case Nop => Next(s[1..], out, D)
    case EndOfStream => Stop(s[8..])
    case Undefined => Reject
    case Truncated => Reject
  }

  /** What a stream `s` expands to, when `out` has been produced and `D` is the last distance. */
  function Expand(s: seq<byte>, out: seq<byte>, D: nat): (r: Expansion)
    ensures r.Ended? ==> out <= r.out
    decreases |s|
  {
    match Step(s, out, D)
    case Next(s', out', D') => Expand(s', out', D')
    case Stop(rest) => Ended(out, rest)
    case Reject => Malformed
    case Stale => Unspecified
  }

  /** Expansion after an effect. */
  function After(e: Effect): (r: Expansion)
    requires !e.Stop?
    ensures e.Next? && r.Ended? ==> e.out <= r.out
  {
    match e
    case Next(s, out, D) => Expand(s, out, D)
    case Reject => Malformed
    case Stale => Unspecified
  }

  /** The opcode bytes only shift where the literal starts. */
  lemma ExecuteSkip(s: seq<byte>, out: seq<byte>, n: nat, L: nat, M: nat, D: nat, bare: bool)
    requires n + L <= |s|
    ensures Execute(s, out, n, L, M, D, bare) == Execute(s[n..], out, 0, L, M, D, bare)
  {
    assert s[n..][0..0 + L] == s[n..n + L];
    assert s[n..][0 + L..] == s[n + L..];
  }

  /** Interrupting an instruction after `k` of its literal bytes changes nothing. */
  lemma ExecuteSplitLiteral(s: seq<byte>, out: seq<byte>, k: nat, L: nat, M: nat, D: nat)
    requires k <= L <= |s|
    ensures Execute(s, out, 0, L, M, D, false) == Execute(s[k..], out + s[..k], 0, L - k, M, D, false)
  {
    assert out + s[..k] + s[k..][0..L - k] == out + s[0..L];
    assert s[k..][0 + (L - k)..] == s[0 + L..];
  }

  /** An instruction is its literal followed by its match. */
  lemma ExecuteLiteralThenMatch(s: seq<byte>, out: seq<byte>, L: nat, M: nat, D: nat)
    requires L <= |s| && 0 < D <= |out| + L && M > 0
    ensures Execute(s, out, 0, L, M, D, false) == Execute(s[L..], out + s[..L], 0, 0, M, D, true)
  {
    assert s[0..0 + L] == s[..L];
    assert out + s[..L] + s[L..][0..0] == out + s[..L];
    assert s[L..][0..] == s[0 + L..];
  }

  /** Interrupting a match after `k` bytes changes nothing. */
  lemma ExecuteSplitMatch(s: seq<byte>, out: seq<byte>, k: nat, M: nat, D: nat)
    requires k < M && 0 < D <= |out|
    ensures Execute(s, out, 0, 0, M, D, true) == Execute(s, CopyMatch(out, D, k), 0, 0, M - k, D, true)
  {
    CopyMatchSplit(out, D, k, M - k);
    hide CopyMatch;
    assert out + s[0..0] == out;
    assert CopyMatch(out, D, k) + s[0..0] == CopyMatch(out, D, k);
  }

  /** A stream always ends with a marker. */
  lemma ExpandEmpty(out: seq<byte>, D: nat)
    ensures Expand([], out, D).Malformed?
  {
  }

  /** One instruction off the front of a stream. */
  lemma ExpandStep(s: seq<byte>, out: seq<byte>, D: nat, e: Effect)
    requires Step(s, out, D) == e && e.Next?
    ensures Expand(s, out, D) == Expand(e.s, e.out, e.D)
  {
    hide Step;
  }

  /** The eight bytes written by `lzvn_emit_end_of_stream`. */
  function EndMarker(): (r: seq<byte>)
    ensures |r| == 8
  {
    [6, 0, 0, 0, 0, 0, 0, 0]
  }

  lemma EndMarkerStops(out: seq<byte>, D: nat)
    ensures Expand(EndMarker(), out, D) == Ended(out, [])
  {
    var s := EndMarker();
    assert Parse(s, D) == EndOfStream;
    assert s[8..] == [];
    assert Step(s, out, D) == Stop([]);
  }
}
