/**
 * JSON strings as json11 writes and reads them (section 7 of RFC 8259): arbitrary bytes, with
 * control characters, quotes, backslashes, U+2028 and U+2029 escaped.
 */
module JsonText {
  import opened Bytes
  import opened TextOrder

  const QUOTE: byte := 34
  const BACKSLASH: byte := 92
  const LETTER_U: byte := 117

  // ---------- writing ----------

  function HexDigit(n: nat): (c: byte)
    requires n < 16
  {
    if n < 10 then 48 + n else 87 + n
  }

  /** The two-character escapes. */
  function ShortEscape(c: byte): byte {
    if c == 8 then 98 else if c == 12 then 102 else if c == 10 then 110 else if c == 13 then 114
    else if c == 9 then 116 else c
  }

  predicate HasShortEscape(c: byte) {
    c == BACKSLASH || c == QUOTE || c == 8 || c == 12 || c == 10 || c == 13 || c == 9
  }

  function EscapeByte(c: byte): (r: Text)
    ensures |r| > 0
  {
    if HasShortEscape(c) then [BACKSLASH, ShortEscape(c)]
    else if c <= 0x1f then [BACKSLASH, LETTER_U, 48, 48, HexDigit(c / 16), HexDigit(c % 16)]
    else [c]
  }

  /** U+2028 or U+2029 in UTF-8. */
  predicate IsSeparator(s: Text) { |s| >= 3 && s[0] == 0xe2 && s[1] == 0x80 && (s[2] == 0xa8 || s[2] == 0xa9) }

  function SeparatorEscape(last: byte): Text {
    [BACKSLASH, LETTER_U, 50, 48, 50, if last == 0xa8 then 56 else 57]
  }

  /** The inside of a dumped string. */
  function Escape(s: Text): Text {
    if s == [] then []
    else if IsSeparator(s) then SeparatorEscape(s[2]) + Escape(s[3..])
    else EscapeByte(s[0]) + Escape(s[1..])
  }

  function DumpText(s: Text): Text { [QUOTE] + (Escape(s) + [QUOTE]) }

  lemma EscapeStep(s: Text, i: nat)
    requires i < |s|
    ensures Escape(s[i..]) ==
      if IsSeparator(s[i..]) then SeparatorEscape(s[i + 2]) + Escape(s[i + 3..])
      else EscapeByte(s[i]) + Escape(s[i + 1..])
  {
    assert s[i..][1..] == s[i + 1..];
    if IsSeparator(s[i..]) { assert s[i..][3..] == s[i + 3..]; }
  }

  /** `dump` of a string. */
  method AppendText(value: Text, out0: Text) returns (out: Text)
    ensures out == out0 + DumpText(value)
  {
    hide Escape, EscapeByte;
    out := out0 + [QUOTE];
    var i := 0;
    assert value[0..] == value;
    while i < |value|
      invariant i <= |value| && out + Escape(value[i..]) == out0 + [QUOTE] + Escape(value)
    {
      EscapeStep(value, i);
      var ch := value[i];
      if IsSeparator(value[i..]) {
        out := out + SeparatorEscape(value[i + 2]);
        i := i + 3;
      } else {
        out := out + EscapeByte(ch);
        i := i + 1;
      }
    }
    EscapeEmpty();
    assert value[i..] == [] && out + [] == out;
    out := out + [QUOTE];
    assert out0 + [QUOTE] + Escape(value) + [QUOTE] == out0 + ([QUOTE] + (Escape(value) + [QUOTE]));
  }

  lemma EscapeEmpty()
    ensures Escape([]) == []
  {
  }

  // ---------- reading ----------

  /** `encode_utf8`; nothing for -1. */
  function Utf8(pt: int): Text
    requires -1 <= pt < 0x11_0000
  {
    if pt < 0 then []
    else if pt < 0x80 then [pt]
    else if pt < 0x800 then [0xC0 + pt / 0x40, 0x80 + pt % 0x40]
    else if pt < 0x1_0000 then [0xE0 + pt / 0x1000, 0x80 + pt / 0x40 % 0x40, 0x80 + pt % 0x40]
    else [0xF0 + pt / 0x4_0000, 0x80 + pt / 0x1000 % 0x40, 0x80 + pt / 0x40 % 0x40, 0x80 + pt % 0x40]
  }

  predicate IsHex(c: byte) { 97 <= c <= 102 || 65 <= c <= 70 || 48 <= c <= 57 }

  function HexValue(c: byte): (n: nat)
    requires IsHex(c)
    ensures n < 16
  {
    if c <= 57 then c - 48 else if c <= 70 then c - 55 else c - 87
  }

  /** The code point of four hexadecimal digits, or none. */
  function CodePoint(e: Text): (r: int)
    ensures -1 <= r < 0x1_0000
  {
    if |e| == 4 && IsHex(e[0]) && IsHex(e[1]) && IsHex(e[2]) && IsHex(e[3])
    then 0x1000 * HexValue(e[0]) + 0x100 * HexValue(e[1]) + 0x10 * HexValue(e[2]) + HexValue(e[3])
    else -1
  }

  /** The character an escape letter stands for, or none. */
  function Unescape(c: byte): int {
    if c == 98 then 8 else if c == 102 then 12 else if c == 110 then 10 else if c == 114 then 13 else if c == 116 then 9
    else if c == QUOTE || c == BACKSLASH || c == 47 then c else -1
  }

  /** The code point of a surrogate pair. */
  function PairPoint(lead: int, trail: int): (pt: int)
    requires 0xD800 <= lead <= 0xDBFF && 0xDC00 <= trail <= 0xDFFF
    ensures 0x1_0000 <= pt < 0x11_0000
  {
    (lead - 0xD800) * 0x400 + (trail - 0xDC00) + 0x1_0000
  }

  /** A code point after the one held back: a surrogate pair is put together, anything else is emitted. */
  function Combine(last: int, pt: int): (r: (Text, int))
    requires -1 <= last < 0x1_0000 && 0 <= pt < 0x1_0000
    ensures -1 <= r.1 < 0x1_0000
  {
    if 0xD800 <= last <= 0xDBFF && 0xDC00 <= pt <= 0xDFFF
    then (Utf8(PairPoint(last, pt)), -1)
    else (Utf8(last), pt)
  }

  // ---------- what a string's text stands for ----------

  /** A piece of a string's text: a byte that stands for itself, an escape letter, or four hexadecimal digits. */
  datatype Piece = Raw(c: byte) | Letter(l: byte) | Unit(hex: Text)

  predicate Legal(p: Piece) {
    match p
    case Raw(c) => c > 0x1f && c != QUOTE && c != BACKSLASH
    case Letter(l) => Unescape(l) >= 0
    case Unit(hex) => CodePoint(hex) >= 0
  }

  predicate AllLegal(ps: seq<Piece>) { forall k :: 0 <= k < |ps| ==> Legal(ps[k]) }

  function Spelt(p: Piece): Text {
    match p
    case Raw(c) => [c]
    case Letter(l) => [BACKSLASH, l]
    case Unit(hex) => [BACKSLASH, LETTER_U] + hex
  }

  function SpellAll(ps: seq<Piece>): Text { if ps == [] then [] else Spelt(ps[0]) + SpellAll(ps[1..]) }

  function One(p: Piece): Text {
    match p
    case Raw(c) => [c]
    case Letter(l) => if Unescape(l) >= 0 then [Unescape(l)] else []
    case Unit(hex) => Utf8(CodePoint(hex))
  }

  predicate IsLead(p: Piece) { p.Unit? && 0xD800 <= CodePoint(p.hex) <= 0xDBFF }

  predicate IsTrail(p: Piece) { p.Unit? && 0xDC00 <= CodePoint(p.hex) <= 0xDFFF }

  function Pair(lead: Piece, trail: Piece): Text
    requires IsLead(lead) && IsTrail(trail)
  {
    Utf8(PairPoint(CodePoint(lead.hex), CodePoint(trail.hex)))
  }

  /** The bytes of a string's text: a lead surrogate right before a trail surrogate makes one code point with it. */
  function Meaning(ps: seq<Piece>): Text {
    if ps == [] then []
    else if |ps| >= 2 && IsLead(ps[0]) && IsTrail(ps[1])
    then Pair(ps[0], ps[1]) + Meaning(ps[2..])
    else One(ps[0]) + Meaning(ps[1..])
  }

  // ---------- UTF-8 ----------

  /** A byte that continues a sequence. */
  predicate Continues(c: byte) { 0x80 <= c <= 0xBF }

  /** The first code point of a text and its length in bytes, by section 3 of RFC 3629; -1 when there is none. */
  function FirstPoint(s: Text): (int, nat) {
    if |s| >= 1 && s[0] <= 0x7F then (s[0], 1)
    else if |s| >= 2 && 0xC2 <= s[0] <= 0xDF && Continues(s[1])
    then (Bits([s[0] - 0xC0, s[1] - 0x80]), 2)
    else if |s| >= 3 && 0xE0 <= s[0] <= 0xEF && Continues(s[1]) && Continues(s[2]) && (s[0] == 0xE0 ==> s[1] >= 0xA0)
    then (Bits([s[0] - 0xE0, s[1] - 0x80, s[2] - 0x80]), 3)
    else if |s| >= 4 && 0xF0 <= s[0] <= 0xF4 && Continues(s[1]) && Continues(s[2]) && Continues(s[3]) &&
      (s[0] == 0xF0 ==> s[1] >= 0x90) && (s[0] == 0xF4 ==> s[1] <= 0x8F)
    then (Bits([s[0] - 0xF0, s[1] - 0x80, s[2] - 0x80, s[3] - 0x80]), 4)
    else (-1, 0)
  }

  /** Groups of six bits, the first one on top. */
  function Bits(b: Text): nat { if b == [] then 0 else 0x40 * Bits(b[..|b| - 1]) + b[|b| - 1] }

  lemma BitsAre(a: byte, b: byte, c: byte, d: byte)
    ensures Bits([a, b]) == 0x40 * a + b && Bits([a, b, c]) == 0x40 * (0x40 * a + b) + c
    ensures Bits([a, b, c, d]) == 0x40 * (0x40 * (0x40 * a + b) + c) + d
  {
    assert [a][..0] == [] && [a, b][..1] == [a] && [a, b, c][..2] == [a, b] && [a, b, c, d][..3] == [a, b, c];
    assert Bits([a]) == a;
  }

  /** Whatever follows, the code point that was written is read, in its shortest form. */
  lemma Utf8Reads(pt: nat, rest: Text)
    requires pt < 0x11_0000
    ensures FirstPoint(Utf8(pt) + rest) == (pt as int, |Utf8(pt)|)
  {
    if 0x80 <= pt < 0x800 {
      TwoBytes(pt, rest);
    } else if 0x800 <= pt < 0x1_0000 {
      ThreeBytes(pt, rest);
    } else if 0x1_0000 <= pt {
      FourBytes(pt, rest);
    }
  }

  lemma TwoBytes(pt: nat, rest: Text)
    requires 0x80 <= pt < 0x800
    ensures FirstPoint(Utf8(pt) + rest) == (pt as int, 2)
  {
    hide Bits;
    BitsAre(pt / 0x40, pt % 0x40, 0, 0);
  }

  lemma ThreeBytes(pt: nat, rest: Text)
    requires 0x800 <= pt < 0x1_0000
    ensures FirstPoint(Utf8(pt) + rest) == (pt as int, 3)
  {
    hide Bits;
    Sixes(pt);
    BitsAre(pt / 0x1000, pt / 0x40 % 0x40, pt % 0x40, 0);
  }

  lemma FourBytes(pt: nat, rest: Text)
    requires 0x1_0000 <= pt < 0x11_0000
    ensures FirstPoint(Utf8(pt) + rest) == (pt as int, 4)
  {
    hide Bits;
    Sixes(pt);
    BitsAre(pt / 0x4_0000, pt / 0x1000 % 0x40, pt / 0x40 % 0x40, pt % 0x40);
  }

  lemma Sixes(pt: nat)
    ensures pt == 0x40 * (pt / 0x40) + pt % 0x40
    ensures pt / 0x40 == 0x40 * (pt / 0x1000) + pt / 0x40 % 0x40
    ensures pt / 0x1000 == 0x40 * (pt / 0x4_0000) + pt / 0x1000 % 0x40
  {
    assert pt / 0x40 / 0x40 == pt / 0x1000 && pt / 0x1000 / 0x40 == pt / 0x4_0000;
  }

  /** The surrogate pair of a code point outside the basic plane, by section 7 of RFC 8259, is put together again. */
  lemma PairReads(pt: nat)
    requires 0x1_0000 <= pt < 0x11_0000
    ensures Combine(0xD800 + (pt - 0x1_0000) / 0x400, 0xDC00 + (pt - 0x1_0000) % 0x400) == (Utf8(pt), -1)
  {
  }

  // ---------- escapes ----------

  /** `c` is the hexadecimal digit `n`, in either case. */
  predicate Writes(c: byte, n: nat) {
    n < 16 && (c == "0123456789abcdef"[n] as int || c == "0123456789ABCDEF"[n] as int)
  }

  lemma HexReads(c: byte, n: nat)
    ensures Writes(c, n) <==> IsHex(c) && HexValue(c) == n
  {
  }

  /** Four digits are read as the number they write, and nothing else is. */
  lemma UnitReads(e: Text, a: nat, b: nat, c: nat, d: nat)
    ensures CodePoint(e) >= 0 <==> |e| == 4 && forall k :: 0 <= k < 4 ==> exists n :: Writes(e[k], n)
    ensures |e| == 4 && Writes(e[0], a) && Writes(e[1], b) && Writes(e[2], c) && Writes(e[3], d) ==>
      CodePoint(e) == 0x1000 * a + 0x100 * b + 0x10 * c + d
  {
    hide Writes, HexValue;
    forall k, n | 0 <= k < |e| ensures Writes(e[k], n) <==> IsHex(e[k]) && HexValue(e[k]) == n { HexReads(e[k], n); }
    assert forall k :: 0 <= k < |e| && IsHex(e[k]) ==> Writes(e[k], HexValue(e[k]));
  }

  // The escape letters and what they stand for.
  const LETTERS: Text := [34, 92, 47, 98, 102, 110, 114, 116] // "\/bfnrt
  const STANDS: Text := [34, 92, 47, 8, 12, 10, 13, 9]

  lemma LettersRead(l: byte)
    ensures Unescape(l) >= 0 <==> l in LETTERS
    ensures forall k :: 0 <= k < 8 ==> Unescape(LETTERS[k]) == STANDS[k]
  {
  }

  /** What is written for each byte: a letter's escape, four digits for the other control bytes, or the byte. */
  lemma EscapesAre(c: byte)
    ensures forall k :: 0 <= k < 8 && LETTERS[k] != 47 ==> EscapeByte(STANDS[k]) == [BACKSLASH, LETTERS[k]]
    ensures c <= 0x1f && c !in STANDS ==>
      var e := EscapeByte(c);
      |e| == 6 && e[..4] == [BACKSLASH, LETTER_U, 48, 48] && Writes(e[4], c / 16) && Writes(e[5], c % 16)
    ensures c > 0x1f && (c !in STANDS || c == 47) ==> EscapeByte(c) == [c]
  {
  }

  // ---------- reading piece by piece ----------

  lemma {:induction false} SpellAppend(ps: seq<Piece>, p: Piece)
    ensures SpellAll(ps + [p]) == SpellAll(ps) + Spelt(p)
  {
    hide Spelt;
    if ps == [] {
      assert [p][1..] == [];
      assert SpellAll([p]) == Spelt(p) + [];
    } else {
      SpellAppend(ps[1..], p);
      assert (ps + [p])[1..] == ps[1..] + [p];
    }
  }

  /** What the first piece stands for, or the first two, and how many they are. */
  function Front(ps: seq<Piece>): (Text, nat)
    requires ps != []
  {
    if |ps| >= 2 && IsLead(ps[0]) && IsTrail(ps[1]) then (Pair(ps[0], ps[1]), 2) else (One(ps[0]), 1)
  }

  lemma MeaningStep(ps: seq<Piece>)
    requires ps != []
    ensures 1 <= Front(ps).1 <= |ps| && Meaning(ps) == Front(ps).0 + Meaning(ps[Front(ps).1..])
  {
  }

  lemma MeaningOne(p: Piece)
    ensures Meaning([]) == [] && Meaning([p]) == One(p)
  {
    assert [p][1..] == [];
  }

  /** Pieces at the end do not change the front, unless they come right after a single one. */
  lemma FrontStays(ps: seq<Piece>, p: Piece)
    requires ps != [] && (|ps| >= 2 || !(IsLead(ps[0]) && IsTrail(p)))
    ensures Front(ps + [p]) == Front(ps)
    ensures Front(ps).1 < |ps| ==> Front(ps[..|ps| - 1]) == Front(ps)
    ensures Front(ps).1 == |ps| ==> |ps| == 1 || !IsLead(ps[|ps| - 1])
  {
  }

  /** A piece at the end adds what it stands for, unless it completes a pair. */
  lemma {:induction false} MeaningAppend(ps: seq<Piece>, p: Piece)
    ensures Meaning(ps + [p]) ==
      if ps != [] && IsLead(ps[|ps| - 1]) && IsTrail(p)
      then Meaning(ps[..|ps| - 1]) + Pair(ps[|ps| - 1], p)
      else Meaning(ps) + One(p)
    decreases |ps|
  {
    hide Pair, One, IsLead, IsTrail, Meaning, Front;
    var qs, n := ps + [p], |ps| - 1;
    MeaningOne(p);
    if ps == [] {
      assert qs == [p];
    } else if n == 0 && IsLead(ps[0]) && IsTrail(p) {
      PairAlone(ps[0], p);
      assert qs == [ps[0], p] && ps[..0] == [];
    } else {
      FrontStays(ps, p);
      var (f, k) := Front(ps);
      MeaningStep(qs);
      MeaningStep(ps);
      MeaningAppend(ps[k..], p);
      assert qs[k..] == ps[k..] + [p];
      if k <= n {
        assert ps[k..][n - k] == ps[n];
        MeaningStep(ps[..n]);
        assert ps[..n][k..] == ps[k..][..n - k];
      }
    }
  }

  lemma PairAlone(a: Piece, b: Piece)
    requires IsLead(a) && IsTrail(b)
    ensures Meaning([a, b]) == Pair(a, b)
  {
    assert [a, b][2..] == [];
  }

  /** After the pieces `ps`: `out` has been emitted and the code point `last` is held back. */
  ghost predicate Held(ps: seq<Piece>, out: Text, last: int) {
    && AllLegal(ps) && -1 <= last < 0x1_0000 && out + Utf8(last) == Meaning(ps)
    && (last < 0 ==> ps == [] || !IsLead(ps[|ps| - 1]))
    && (last >= 0 ==>
      ps != [] && ps[|ps| - 1].Unit? && CodePoint(ps[|ps| - 1].hex) == last && out == Meaning(ps[..|ps| - 1]))
  }

  lemma NoCodePoint()
    ensures Utf8(-1) == [] && Held([], [], -1)
  {
  }

  lemma HeldBounds(ps: seq<Piece>, out: Text, last: int)
    requires Held(ps, out, last)
    ensures -1 <= last < 0x1_0000 && AllLegal(ps) && out + Utf8(last) == Meaning(ps)
  {
  }

  /** An escape's letter, or `u` and four digits. */
  predicate EscapeAt(str: Text, i: nat) {
    i < |str| &&
    if str[i] == LETTER_U then i + 5 <= |str| && CodePoint(str[i + 1..i + 5]) >= 0 else Unescape(str[i]) >= 0
  }

  lemma HeldByte(ps: seq<Piece>, out: Text, last: int, p: Piece)
    requires Held(ps, out, last) && Legal(p) && !p.Unit?
    ensures Held(ps + [p], out + Utf8(last) + One(p), -1)
  {
    hide Utf8, CodePoint, Meaning;
    MeaningAppend(ps, p);
    NoCodePoint();
  }

  lemma HeldUnit(ps: seq<Piece>, out: Text, last: int, p: Piece)
    requires Held(ps, out, last) && Legal(p) && p.Unit?
    ensures var c := Combine(last, CodePoint(p.hex)); Held(ps + [p], out + c.0, c.1)
  {
    hide Utf8, CodePoint, Meaning;
    MeaningAppend(ps, p);
    NoCodePoint();
    assert (ps + [p])[..|ps|] == ps;
  }

  /** One piece at most stands at a position. */
  lemma PieceUnique(str: Text, i: nat, m: nat, n: nat, p: Piece, q: Piece)
    requires i <= m <= |str| && i <= n <= |str| && Legal(p) && Legal(q)
    requires str[i..m] == Spelt(p) && str[i..n] == Spelt(q)
    ensures p == q
  {
    hide CodePoint;
    CodePointLength(p);
    CodePointLength(q);
    assert str[i] == Spelt(p)[0] == Spelt(q)[0];
    if !p.Raw? {
      assert str[i + 1] == str[i..m][1] == str[i..n][1];
      if p.Unit? && q.Unit? { assert p.hex == Spelt(p)[2..] && q.hex == Spelt(q)[2..]; }
    }
  }

  lemma CodePointLength(p: Piece)
    ensures p.Unit? && Legal(p) ==> |p.hex| == 4
    ensures p == Letter(LETTER_U) ==> !Legal(p)
  {
  }

  /** One more piece has been read. */
  lemma ReadOne(str: Text, start: nat, i: nat, n: nat, read: seq<Piece>, p: Piece)
    requires start <= i <= n <= |str| && str[start..i] == SpellAll(read) && str[i..n] == Spelt(p)
    ensures str[start..n] == SpellAll(read + [p])
  {
    hide Spelt;
    SpellAppend(read, p);
    assert str[start..n] == str[start..i] + str[i..n];
  }

  lemma StartsPiece(str: Text, i: nat, p: Piece)
    requires Legal(p) && i + |Spelt(p)| <= |str| && str[i..i + |Spelt(p)|] == Spelt(p)
    ensures i < |str| && str[i] > 0x1f && str[i] != QUOTE && (str[i] == BACKSLASH ==> EscapeAt(str, i + 1))
  {
    hide CodePoint;
    CodePointLength(p);
    assert forall k :: 0 <= k < |Spelt(p)| ==> str[i + k] == Spelt(p)[k];
    if p.Unit? { assert str[i + 2..i + 6] == Spelt(p)[2..] == p.hex; }
  }

  // ---------- dumped strings ----------

  function PieceOf(c: byte): Piece {
    if HasShortEscape(c) then Letter(ShortEscape(c))
    else if c <= 0x1f then Unit([48, 48, HexDigit(c / 16), HexDigit(c % 16)])
    else Raw(c)
  }

  /** The pieces of a dumped string. */
  function Pieces(s: Text): seq<Piece> {
    if s == [] then []
    else if IsSeparator(s) then [Unit(SeparatorEscape(s[2])[2..])] + Pieces(s[3..])
    else [PieceOf(s[0])] + Pieces(s[1..])
  }

  lemma PieceReads(s: Text)
    requires s != []
    ensures IsSeparator(s) ==>
      var p := Unit(SeparatorEscape(s[2])[2..]);
      Legal(p) && Spelt(p) == SeparatorEscape(s[2]) && One(p) == s[..3] && !IsLead(p)
    ensures var p := PieceOf(s[0]); Legal(p) && Spelt(p) == EscapeByte(s[0]) && One(p) == [s[0]] && !IsLead(p)
  {
  }

  /** A dumped string is the text of its pieces, and they stand for the string. */
  lemma {:induction false} PiecesRead(s: Text)
    ensures AllLegal(Pieces(s)) && SpellAll(Pieces(s)) == Escape(s) && Meaning(Pieces(s)) == s
  {
    hide Utf8, CodePoint, PieceOf, EscapeByte, SeparatorEscape, Legal, One, Spelt, IsLead;
    if s != [] {
      PieceReads(s);
      var n := if IsSeparator(s) then 3 else 1;
      PiecesRead(s[n..]);
      assert Pieces(s)[1..] == Pieces(s[n..]);
      assert s == s[..n] + s[n..];
    }
  }

  /** The text of a string has no separator and no control character in it. */
  lemma {:induction false} EscapeSafe(s: Text, j: nat)
    requires j < |Escape(s)|
    ensures Escape(s)[j] > 0x1f && !IsSeparator(Escape(s)[j..])
  {
    var e, n := EscapeByte(s[0]), 1;
    if IsSeparator(s) { e, n := SeparatorEscape(s[2]), 3; }
    var t := Escape(s[n..]);
    assert Escape(s) == e + t;
    if j >= |e| {
      EscapeSafe(s[n..], j - |e|);
      assert (e + t)[j..] == t[j - |e|..];
    } else if e[j] == 0xe2 && |t| >= 2 && t[0] == 0x80 {
      FirstEscaped(s[1..]);
      FirstEscaped(s[2..]);
      assert s[1..][1..] == s[2..];
    }
  }

  /** A byte above the escaped ones in front stands for itself. */
  lemma FirstEscaped(s: Text)
    ensures Escape(s) != [] && Escape(s)[0] >= 0x80 ==>
      s != [] && s[0] == Escape(s)[0] && Escape(s) == [s[0]] + Escape(s[1..])
  {
  }
}
