/**
 * The parser of json11 against the grammar of RFC 8259: it accepts the texts of the grammar that are not
 * nested too deep, and nothing else, and gives the value they stand for.
 */
module JsonParser {
  import opened Bytes
  import opened Decimal
  import opened Json
  import opened JsonGrammar
  import opened JsonText
  import opened TextOrder

  // ---------- numbers in a text ----------

  lemma StandsIs(str: Text, i: nat, x: Text)
    requires StandsAt(str, i, x)
    ensures i + |x| <= |str| && str[i..i + |x|] == x
  {
  }

  /** The parts of a number stand in a text, and what follows each of them. */
  ghost predicate NumberAt(str: Text, w: nat, n: Numeral) {
    StandsAt(str, w, n.whole) && !IsDigit(At(str, w + |n.whole|)) && DoubleAt(str, w + |n.whole|, n)
  }

  ghost predicate DoubleAt(str: Text, f: nat, n: Numeral) {
    var e := f + |n.frac|;
    && StandsAt(str, f, n.frac) && StandsAt(str, e, n.exp) && !IsDigit(At(str, e)) && !IsDigit(At(str, e + |n.exp|))
    && (At(str, f) == POINT <==> n.frac != []) && (IsE(At(str, e)) <==> n.exp != [])
  }

  ghost predicate NumberHere(str: Text, i: nat, n: Numeral) {
    && NumeralOk(n) && NumberAt(str, if n.minus then i + 1 else i, n) && (At(str, i) == MINUS <==> n.minus)
  }

  lemma NumberIs(str: Text, w: nat, n: Numeral)
    requires NumeralOk(n) && NumberAt(str, w, n)
    ensures var f := w + |n.whole|;
      f <= |str| && DigitsEnd(str, w) == f && WholeRead(str, w, f) && DoubleAt(str, f, n)
  {
    DigitsTo(str, w, n.whole);
  }

  predicate WholeRead(str: Text, w: nat, f: nat)
    requires w <= f <= |str|
  {
    WholeOk(str[w..f])
  }

  predicate DoubleRead(str: Text, f: nat, e: nat, i: nat)
    requires f <= e <= i <= |str|
  {
    FracOk(str[f..e]) && ExpOk(str[e..i])
  }

  lemma NumberSplit(str: Text, i: nat, n: Numeral)
    requires StandsAt(str, i, NumeralText(n))
    ensures var w := if n.minus then i + 1 else i;
      var f := w + |n.whole|;
      var e := f + |n.frac|;
      && StandsAt(str, w, n.whole) && StandsAt(str, f, n.frac) && StandsAt(str, e, n.exp)
      && e + |n.exp| == i + |NumeralText(n)| && (n.minus ==> At(str, i) == MINUS)
  {
    var sign := if n.minus then [MINUS] else [];
    var w := i + |sign|;
    StandsSplit(str, i, sign, n.whole + (n.frac + n.exp));
    StandsSplit(str, w, n.whole, n.frac + n.exp);
    StandsSplit(str, w + |n.whole|, n.frac, n.exp);
    FirstAt(str, i, sign);
  }

  lemma NumberParts(str: Text, i: nat, n: Numeral)
    requires NumeralOk(n) && StandsAt(str, i, NumeralText(n)) && EndsAt(str, i + |NumeralText(n)|)
    ensures NumberHere(str, i, n)
  {
    hide NumeralText, StandsAt, WholeOk, FracOk, ExpOk, EndsAt, At;
    NumberSplit(str, i, n);
    var w := if n.minus then i + 1 else i;
    AtIs(str, i);
    AtIs(str, w);
    AtIs(str, w + |n.whole|);
    AtIs(str, w + |n.whole| + |n.frac|);
    DoubleFirst(n.frac, n.exp);
    FirstAt(str, w, n.whole);
    FirstAt(str, w + |n.whole|, n.frac);
    FirstAt(str, w + |n.whole| + |n.frac|, n.exp);
    AtEnd(str, i + |NumeralText(n)|);
    WholeFirst(n.whole);
  }

  lemma AtIs(str: Text, i: nat)
    ensures i < |str| ==> At(str, i) == str[i]
  {
  }

  lemma DoubleFirst(frac: Text, exp: Text)
    requires FracOk(frac) && ExpOk(exp)
    ensures frac != [] ==> frac[0] == POINT
    ensures exp != [] ==> IsE(exp[0])
  {
  }

  lemma WholeFirst(d: Text)
    requires WholeOk(d)
    ensures |d| > 0 && IsDigit(d[0])
  {
  }

  lemma AtEnd(str: Text, i: nat)
    requires EndsAt(str, i)
    ensures !IsDigit(At(str, i)) && At(str, i) != POINT && !IsE(At(str, i))
  {
  }

  lemma FirstAt(str: Text, i: nat, s: Text)
    requires StandsAt(str, i, s)
    ensures i + |s| <= |str| && (s != [] ==> str[i] == s[0] && StandsAt(str, i + 1, s[1..]))
  {
    if s != [] { assert str[i + 1..i + |s|] == str[i..i + |s|][1..]; }
  }

  lemma ExponentAt(str: Text, e: nat, exp: Text)
    requires ExpOk(exp) && StandsAt(str, e, exp) && !IsDigit(At(str, e + |exp|)) && exp != []
    ensures var d := if IsSign(At(str, e + 1)) then e + 2 else e + 1;
      IsDigit(At(str, d)) && DigitsEnd(str, d) == e + |exp|
  {
    FirstAt(str, e, exp);
    FirstAt(str, e + 1, exp[1..]);
    if IsSign(exp[1]) {
      assert exp[1..][1..] == exp[2..];
      FirstAt(str, e + 2, exp[2..]);
      DigitsTo(str, e + 2, exp[2..]);
    } else {
      DigitsTo(str, e + 1, exp[1..]);
    }
  }

  lemma FractionAt(str: Text, f: nat, frac: Text)
    requires FracOk(frac) && StandsAt(str, f, frac) && !IsDigit(At(str, f + |frac|)) && frac != []
    ensures f < |str| && IsDigit(At(str, f + 1)) && DigitsEnd(str, f + 1) == f + |frac|
  {
    FirstAt(str, f, frac);
    FirstAt(str, f + 1, frac[1..]);
    DigitsTo(str, f + 1, frac[1..]);
  }

  lemma FractionRead(str: Text, f: nat, i: nat)
    requires f + 1 < i <= |str| && str[f] == POINT && AllDigits(str[f + 1..i])
    ensures FracOk(str[f..i])
  {
    assert str[f..i][1..] == str[f + 1..i];
  }

  lemma DigitsMore(str: Text, i: nat)
    requires i <= |str| && IsDigit(At(str, i))
    ensures DigitsEnd(str, i) > i
  {
  }

  lemma ExponentRead(str: Text, e: nat, d: nat, i: nat)
    requires e < d < i <= |str| && IsE(str[e]) && AllDigits(str[d..i])
    requires d == if IsSign(At(str, e + 1)) then e + 2 else e + 1
    ensures ExpOk(str[e..i])
  {
    assert str[e..i][d - e..] == str[d..i];
    assert IsDigit(str[d..i][0]);
  }

  lemma NoneOk(str: Text, f: nat)
    requires f <= |str|
    ensures FracOk(str[f..f]) && ExpOk(str[f..f]) && DoubleRead(str, f, f, f)
  {
  }

  ghost function NumeralAt(str: Text, start: nat, w: nat, f: nat, e: nat, i: nat): Numeral
    requires start <= w <= f <= e <= i <= |str|
  {
    Numeral(w > start, str[w..f], str[f..e], str[e..i])
  }

  lemma NumeralSpells(str: Text, start: nat, w: nat, f: nat, e: nat, i: nat)
    requires start <= w <= f <= e <= i <= |str| && w == start + (if At(str, start) == MINUS then 1 else 0)
    ensures str[start..i] == NumeralText(NumeralAt(str, start, w, f, e, i))
  {
    Slices(str, start, w, f, i);
    Slices(str, w, f, e, i);
    assert str[start..w] == if w > start then [MINUS] else [];
  }

  lemma Slices(str: Text, a: nat, b: nat, c: nat, d: nat)
    requires a <= b <= c <= d <= |str|
    ensures str[a..d] == str[a..b] + (str[b..c] + str[c..d]) && str[b..d] == str[b..c] + str[c..d]
  {
  }

  /** What was read is `n` when `n` stands there. */
  lemma NumeralSame(str: Text, start: nat, w: nat, f: nat, e: nat, i: nat, n: Numeral)
    requires start <= w <= f <= e <= i <= |str| && w == start + (if At(str, start) == MINUS then 1 else 0)
    requires NumberHere(str, start, n) && f == w + |n.whole| && e == f + |n.frac| && i == e + |n.exp|
    ensures NumeralAt(str, start, w, f, e, i) == n
  {
    hide NumeralOk, IsDigit, IsE;
  }

  /** The parts that were read make up a number. */
  lemma NumberRead(str: Text, start: nat, w: nat, f: nat, e: nat, i: nat, n: Numeral) returns (read: Numeral)
    requires start <= w <= f <= e <= i <= |str| && w == start + (if At(str, start) == MINUS then 1 else 0)
    requires WholeRead(str, w, f) && DoubleRead(str, f, e, i) && (f < i || i - start > 9)
    ensures NumeralOk(read) && str[start..i] == NumeralText(read) && NumeralValue(read) == Double(str[start..i])
    ensures NumberHere(str, start, n) && f == w + |n.whole| && e == f + |n.frac| && i == e + |n.exp| ==> read == n
  {
    hide WholeOk, FracOk, ExpOk, NumberHere, NumeralText;
    read := NumeralAt(str, start, w, f, e, i);
    NumeralSpells(str, start, w, f, e, i);
    if NumberHere(str, start, n) && f == w + |n.whole| && e == f + |n.frac| && i == e + |n.exp| {
      NumeralSame(str, start, w, f, e, i, n);
    }
  }

  lemma IntegerRead(str: Text, start: nat, w: nat, f: nat, n: Numeral) returns (read: Numeral)
    requires start <= w <= f <= |str| && w == start + (if At(str, start) == MINUS then 1 else 0)
    requires WholeRead(str, w, f) && f - start <= 9 && At(str, f) != POINT && !IsE(At(str, f))
    ensures NumeralOk(read) && str[start..f] == NumeralText(read)
    ensures IntegerShaped(str[start..f]) && NumeralValue(read) == Int(Stoi(str[start..f]))
    ensures NumberHere(str, start, n) && f == w + |n.whole| ==> read == n
  {
    hide Value, NumberHere, NumeralText, FracOk, ExpOk;
    read := NumeralAt(str, start, w, f, f, f);
    NumeralSpells(str, start, w, f, f, f);
    NoneOk(str, f);
    if w > start { assert str[start..f][1..] == str[w..f]; } else { assert str[start..f] == str[w..f]; }
    if NumberHere(str, start, n) && f == w + |n.whole| {
      NoFraction(str, start, n);
      NumeralSame(str, start, w, f, f, f, n);
    }
  }

  lemma NoFraction(str: Text, i: nat, n: Numeral)
    requires NumberHere(str, i, n)
    ensures n.minus <==> At(str, i) == MINUS
    ensures var f := (if n.minus then i + 1 else i) + |n.whole|;
      At(str, f) != POINT && !IsE(At(str, f)) ==> n.frac == [] && n.exp == []
  {
  }

  // ---------- strings in a text ----------

  /** The text of some pieces, and the closing quote. */
  ghost predicate StringAt(str: Text, i: nat, ps: seq<Piece>) {
    AllLegal(ps) && StandsAt(str, i, SpellAll(ps) + [QUOTE])
  }

  /** The pieces were read with the closing quote, and `out` is what they stand for. */
  ghost predicate StringRead(str: Text, i: nat, j: nat, ps: seq<Piece>, out: Text) {
    i <= j <= |str| && AllLegal(ps) && str[i..j] == SpellAll(ps) + [QUOTE] && out == Meaning(ps)
  }

  /** The pieces read so far, what was emitted for them and what is held back. */
  ghost predicate Scanned(str: Text, start: nat, i: nat, read: seq<Piece>, out: Text, last: int) {
    start <= i <= |str| && Held(read, out, last) && str[start..i] == SpellAll(read)
  }

  lemma ScanStart(str: Text, start: nat, ps: seq<Piece>)
    requires start <= |str|
    ensures Scanned(str, start, start, [], [], -1)
    ensures StringAt(str, start, ps) ==> Remains(str, start, [], ps)
  {
    NoCodePoint();
    assert ps[0..] == ps && ps[..0] == [];
  }

  lemma ScanOne(str: Text, start: nat, i: nat, n: nat, read: seq<Piece>, out: Text, last: int, p: Piece, out': Text,
                last': int)
    requires Scanned(str, start, i, read, out, last) && Held(read + [p], out', last')
    requires i <= n <= |str| && str[i..n] == Spelt(p)
    ensures Scanned(str, start, n, read + [p], out', last')
  {
    hide Held, Spelt, SpellAll;
    ReadOne(str, start, i, n, read, p);
  }

  lemma ScanEnd(str: Text, start: nat, i: nat, read: seq<Piece>, out: Text, last: int)
    requires Scanned(str, start, i, read, out, last) && i < |str| && str[i] == QUOTE
    ensures StringRead(str, start, i + 1, read, out + Utf8(last))
  {
    hide Utf8, Meaning, SpellAll;
    HeldBounds(read, out, last);
    assert str[start..i + 1] == str[start..i] + [QUOTE];
  }

  lemma ScanBounds(str: Text, start: nat, i: nat, read: seq<Piece>, out: Text, last: int)
    requires Scanned(str, start, i, read, out, last)
    ensures start <= i <= |str| && Held(read, out, last) && -1 <= last < 0x1_0000
  {
  }

  /** What is still to come of the pieces `ps` of which `read` have been read. */
  ghost predicate Remains(str: Text, i: nat, read: seq<Piece>, ps: seq<Piece>) {
    |read| <= |ps| && read == ps[..|read|] && StringAt(str, i, ps[|read|..])
  }

  /** The next one of them, or the closing quote. */
  lemma RemainsNext(str: Text, i: nat, read: seq<Piece>, ps: seq<Piece>)
    requires Remains(str, i, read, ps)
    ensures i < |str| && (str[i] == QUOTE ==> read == ps)
    ensures str[i] != QUOTE ==> str[i] > 0x1f && (str[i] == BACKSLASH ==> EscapeAt(str, i + 1))
  {
    hide SpellAll, Spelt, EscapeAt;
    RemainsFirst(str, i, read, ps);
    if |read| < |ps| { StartsPiece(str, i, ps[|read|]); }
  }

  lemma RemainsFirst(str: Text, i: nat, read: seq<Piece>, ps: seq<Piece>)
    requires Remains(str, i, read, ps)
    ensures i < |str| && (|read| == |ps| ==> str[i] == QUOTE)
    ensures |read| < |ps| ==>
      var p := ps[|read|];
      Legal(p) && StandsAt(str, i, Spelt(p)) && StringAt(str, i + |Spelt(p)|, ps[|read| + 1..])
  {
    hide Spelt, Legal, StandsAt;
    var k := |read|;
    if k == |ps| {
      assert SpellAll(ps[k..]) + [QUOTE] == [QUOTE];
      FirstAt(str, i, [QUOTE]);
    } else {
      var p, rest := ps[k], ps[k + 1..];
      assert ps[k..][0] == p && ps[k..][1..] == rest;
      Associates(Spelt(p), SpellAll(rest), [QUOTE]);
      StandsSplit(str, i, Spelt(p), SpellAll(rest) + [QUOTE]);
      FirstAt(str, i + |Spelt(p)|, SpellAll(rest) + [QUOTE]);
    }
  }

  /** The piece that was read was that next one. */
  lemma RemainsOne(str: Text, i: nat, n: nat, read: seq<Piece>, ps: seq<Piece>, p: Piece)
    requires Remains(str, i, read, ps) && str[i] != QUOTE && Legal(p) && i <= n <= |str| && str[i..n] == Spelt(p)
    ensures Remains(str, n, read + [p], ps)
  {
    hide Spelt, Legal, StringAt;
    RemainsFirst(str, i, read, ps);
    var k := |read|;
    StandsIs(str, i, Spelt(ps[k]));
    PieceUnique(str, i, n, i + |Spelt(ps[k])|, p, ps[k]);
    assert ps[..k + 1] == ps[..k] + [p];
  }

  // ---------- items and entries in a text ----------

  /** A tree stands in a text, and the text may go on after it. */
  ghost predicate TreeAt(str: Text, i: nat, t: Tree, depth: nat) {
    WellFormed(t, depth) && StandsAt(str, i, Spell(t)) && EndsAt(str, i + |Spell(t)|)
  }

  /** A tree was read, and its value. */
  ghost predicate IsRead(str: Text, i: nat, j: nat, t: Tree, depth: nat, r: Json) {
    i <= j <= |str| && WellFormed(t, depth) && str[i..j] == Spell(t) && r == ValueOf(t)
  }

  /** The first character of a tree that stands in a text tells what it is. */
  lemma Starts(str: Text, i: nat, t: Tree, depth: nat)
    requires TreeAt(str, i, t, depth)
    ensures depth <= MAX_DEPTH && i < |str| && Skip(str, i) == i && str[i] != CLOSE && !IsSpace(str[i])
    ensures t.Number? <==> str[i] == MINUS || IsDigit(str[i])
    ensures t.Quoted? <==> str[i] == QUOTE
    ensures t.Array? <==> str[i] == OPEN
    ensures t.Object? <==> str[i] == OPEN_OBJECT
    ensures t.Word? ==> str[i] == WordText(t.v)[0] && (t.v.Null? || t.v.Bool?)
  {
    hide Spell, StandsAt;
    SpellStart(t, depth);
    FirstAt(str, i, Spell(t));
  }

  lemma QuotedAt(str: Text, i: nat, t: Tree, depth: nat)
    requires 0 < i <= |str| && t.Quoted? && TreeAt(str, i - 1, t, depth)
    ensures StringAt(str, i, t.ps)
  {
    hide SpellAll, AllLegal;
    FirstAt(str, i - 1, Spell(t));
    assert Spell(t)[1..] == SpellAll(t.ps) + [QUOTE];
  }

  lemma QuotedRead(str: Text, i: nat, j: nat, ps: seq<Piece>, out: Text, depth: nat)
    requires 0 < i && StringRead(str, i, j, ps, out) && str[i - 1] == QUOTE && depth <= MAX_DEPTH
    ensures IsRead(str, i - 1, j, Quoted(ps), depth, Str(out))
  {
    hide SpellAll, AllLegal, Meaning;
    assert str[i - 1..j] == [QUOTE] + str[i..j];
  }

  // ---------- lists of parts ----------

  /** The parts of an array or object with what is before each of them, and how it ends. */
  datatype List = List(texts: seq<Text>, befores: seq<Text>, end: Text, close: byte)

  predicate PartOk(k: nat, before: Text, text: Text, close: byte) {
    && BeforeOk(k, before) && |before| < |text| && text[..|before|] == before
    && !IsSpace(text[|before|]) && text[|before|] != close
  }

  ghost predicate ListAt(str: Text, start: nat, l: List) {
    && AllSpace(l.end) && (l.close == CLOSE || l.close == CLOSE_OBJECT) && |l.befores| == |l.texts|
    && (forall k :: 0 <= k < |l.texts| ==> PartOk(k, l.befores[k], l.texts[k], l.close))
    && StandsAt(str, start, Concat(l.texts) + (l.end + [l.close]))
  }

  /** Where the `k`th part begins, with what is before it. */
  ghost function Begin(start: nat, l: List, k: nat): nat
    requires k <= |l.texts|
  {
    start + |Concat(l.texts[..k])|
  }

  lemma NoMoreParts(str: Text, start: nat, l: List)
    requires ListAt(str, start, l)
    ensures var p := Begin(start, l, |l.texts|);
      && p <= |str| && EndsAt(str, p) && Skip(str, p) == p + |l.end| < |str| && str[p + |l.end|] == l.close
      && StandsAt(str, p, l.end)
  {
    hide Concat, AllSpace, StandsAt, Skip, EndsAt, PartOk;
    var n := |l.texts|;
    PartAt(str, start, l.texts, n, l.end + [l.close]);
    ClosingEnds(str, Begin(start, l, n), l.end, l.close);
    StandsSplit(str, Begin(start, l, n), l.end, [l.close]);
  }

  /** What the parser finds at a separator. */
  lemma Separated(str: Text, p: nat, k: nat, before: Text)
    requires BeforeOk(k, before) && StandsAt(str, p, before) && p + |before| < |str| && !IsSpace(str[p + |before|])
    ensures k == 0 ==> Skip(str, p) == p + |before|
    ensures k > 0 ==> EndsAt(str, p)
    ensures k > 0 ==> var j := Skip(str, p); j < |str| && str[j] == COMMA && Skip(str, j + 1) == p + |before|
  {
    hide AllSpace, Around, Skip, StandsAt;
    if k == 0 {
      SkipTo(str, p, before);
    } else {
      AroundAt(str, p, before, COMMA);
      AroundEnds(str, p, before);
    }
  }

  lemma PartText(str: Text, p: nat, k: nat, before: Text, text: Text, close: byte)
    requires StandsAt(str, p, text) && PartOk(k, before, text, close)
    ensures var q := p + |before|;
      q < |str| && BeforeOk(k, before) && StandsAt(str, p, before) && !IsSpace(str[q]) && str[q] != close
  {
    hide BeforeOk, IsSpace;
    assert str[p..p + |before|] == str[p..p + |text|][..|before|] && str[p + |before|] == str[p..p + |text|][|before|];
  }

  /** What the parser finds at the `k`th part. */
  lemma NextPartAt(str: Text, start: nat, l: List, k: nat)
    requires ListAt(str, start, l) && k < |l.texts|
    ensures var p := Begin(start, l, k);
      var q := p + |l.befores[k]|;
      && StandsAt(str, p, l.texts[k]) && p + |l.texts[k]| == Begin(start, l, k + 1)
      && p <= q < |str| && StandsAt(str, p, l.befores[k]) && !IsSpace(str[q]) && str[q] != l.close
      && (k == 0 ==> Skip(str, p) == q)
      && (k > 0 ==> EndsAt(str, p) && var j := Skip(str, p); j < |str| && str[j] == COMMA && Skip(str, j + 1) == q)
  {
    hide Concat, AllSpace, Skip, IsSpace, BeforeOk, EndsAt, StandsAt, PartOk;
    var p, b, x := Begin(start, l, k), l.befores[k], l.texts[k];
    PartAt(str, start, l.texts, k, l.end + [l.close]);
    PartText(str, p, k, b, x, l.close);
    Separated(str, p, k, b);
  }

  lemma PartEnds(str: Text, start: nat, l: List, k: nat)
    requires ListAt(str, start, l) && 0 < k <= |l.texts|
    ensures Begin(start, l, k) <= |str| && EndsAt(str, Begin(start, l, k))
  {
    hide ListAt, Begin, EndsAt, Skip, StandsAt;
    if k < |l.texts| { NextPartAt(str, start, l, k); } else { NoMoreParts(str, start, l); }
  }

  /** After a part that ended at `p`: a separator and the first character of the next part, or the closing one. */
  ghost predicate Between(str: Text, start: nat, p: nat, i: nat, more: bool, close: byte, k: nat) {
    && start <= p < i <= |str|
    && if more then !IsSpace(str[i - 1]) && BeforeOk(k, str[p..i - 1])
       else str[i - 1] == close && AllSpace(str[p..i - 1])
  }

  /** Exactly the first `k` parts of `l` have been read. */
  ghost predicate Done(str: Text, start: nat, l: List, k: nat, p: nat) {
    ListAt(str, start, l) && k <= |l.texts| && p == Begin(start, l, k)
  }

  /** And the parser is where `l` goes on, or at its end. */
  ghost predicate Goes(str: Text, start: nat, l: List, k: nat, p: nat, i: nat, more: bool) {
    Done(str, start, l, k, p) && (more <==> k < |l.texts|) && i - 1 == p + |if more then l.befores[k] else l.end|
  }

  /** What is found at the first part. */
  lemma FirstFound(str: Text, start: nat, l: List, close: byte)
    requires start <= |str|
    ensures var j := Skip(str, start);
      && (j < |str| ==> Between(str, start, start, j + 1, str[j] != close, close, 0))
      && (ListAt(str, start, l) && l.close == close ==>
            j < |str| && Goes(str, start, l, 0, start, j + 1, str[j] != close))
  {
    hide AllSpace, IsSpace, Skip, StandsAt, ListAt;
    SkipStops(str, start);
    if ListAt(str, start, l) && l.close == close {
      assert l.texts[..0] == [];
      ListShape(str, start, l);
      if l.texts == [] { NoMoreParts(str, start, l); } else { NextPartAt(str, start, l, 0); }
    }
  }

  lemma ListShape(str: Text, start: nat, l: List)
    requires ListAt(str, start, l)
    ensures |l.befores| == |l.texts|
  {
  }

  /** What is found after the `k`th part. */
  lemma NextFound(str: Text, start: nat, p: nat, k: nat, close: byte, l: List)
    requires start <= p <= |str| && k > 0
    ensures var j := Skip(str, p);
      && (j < |str| && str[j] == close ==> Between(str, start, p, j + 1, false, close, k))
      && (j < |str| && str[j] == COMMA && Skip(str, j + 1) < |str| ==>
            Between(str, start, p, Skip(str, j + 1) + 1, true, close, k))
      && (Done(str, start, l, k, p) && l.close == close ==>
            && j < |str| && (str[j] == close || (str[j] == COMMA && Skip(str, j + 1) < |str|))
            && Goes(str, start, l, k, p, (if str[j] == close then j else Skip(str, j + 1)) + 1, str[j] != close))
  {
    hide Skip, AllSpace, IsSpace, Around, ListAt, StandsAt, Begin, EndsAt;
    var j := Skip(str, p);
    SkipStops(str, p);
    if j < |str| && str[j] == COMMA { AroundFrom(str, p, COMMA); SkipStops(str, j + 1); }
    if Done(str, start, l, k, p) && l.close == close {
      ListShape(str, start, l);
      CloseNotComma(str, start, l);
      if k == |l.texts| { NoMoreParts(str, start, l); } else { NextPartAt(str, start, l, k); }
    }
  }

  lemma CloseNotComma(str: Text, start: nat, l: List)
    requires ListAt(str, start, l)
    ensures l.close != COMMA
  {
  }

  lemma Enclosed(str: Text, start: nat, p: nat, i: nat)
    requires 0 < start <= p < i <= |str|
    ensures str[start - 1..i] == [str[start - 1]] + (str[start..p] + (str[p..i - 1] + [str[i - 1]]))
  {
    assert str[p..i] == str[p..i - 1] + [str[i - 1]];
    assert str[start..i] == str[start..p] + str[p..i];
  }

  // ---------- arrays ----------

  ghost function ItemList(t: Tree): List
    requires t.Array?
  {
    List(ItemTexts(t.items), seq(|t.items|, k requires 0 <= k < |t.items| => t.items[k].before), t.end, CLOSE)
  }

  lemma ArrayHere(str: Text, start: nat, t: Tree, depth: nat)
    requires 0 < start <= |str| && TreeAt(str, start - 1, t, depth) && t.Array?
    ensures ListAt(str, start, ItemList(t))
  {
    hide StandsAt, Spell, WellFormed, AllSpace, BeforeOk, IsSpace;
    ArrayIs(t.items, t.end, depth);
    FirstAt(str, start - 1, Spell(t));
    assert Spell(t)[1..] == Concat(ItemTexts(t.items)) + (t.end + [CLOSE]);
    forall k | 0 <= k < |t.items| ensures PartOk(k, t.items[k].before, SpellItem(t.items[k]), CLOSE) {
      SpellStart(t.items[k].tree, depth + 1);
    }
  }

  /** At the `k`th item. */
  lemma ItemHere(str: Text, start: nat, t: Tree, k: nat, depth: nat)
    requires t.Array? && WellFormed(t, depth) && ListAt(str, start, ItemList(t)) && k < |t.items|
    ensures var p := Begin(start, ItemList(t), k);
      var q := p + |t.items[k].before|;
      && q <= |str| && str[p..q] == t.items[k].before && TreeAt(str, q, t.items[k].tree, depth + 1)
      && q + |Spell(t.items[k].tree)| == Begin(start, ItemList(t), k + 1)
  {
    hide ListAt, Begin, StandsAt, Skip, Spell, EndsAt, IsSpace;
    var l, it := ItemList(t), t.items[k];
    NextPartAt(str, start, l, k);
    PartEnds(str, start, l, k + 1);
    StandsSplit(str, Begin(start, l, k), it.before, Spell(it.tree));
    StandsIs(str, Begin(start, l, k), it.before);
  }

  /** The items read up to `p` are the first ones of `t`. */
  ghost predicate ItemsDone(str: Text, start: nat, t: Tree, depth: nat, p: nat, items: seq<Item>) {
    && t.Array? && WellFormed(t, depth) && |items| <= |t.items| && items == t.items[..|items|]
    && Done(str, start, ItemList(t), |items|, p)
  }

  /** And the parser is where `t` goes on. */
  ghost predicate ItemsGo(str: Text, start: nat, t: Tree, depth: nat, p: nat, i: nat, more: bool, items: seq<Item>) {
    ItemsDone(str, start, t, depth, p, items) && Goes(str, start, ItemList(t), |items|, p, i, more)
  }

  ghost function ItemsNext(str: Text, start: nat, t: Tree, depth: nat, p: nat, items: seq<Item>): (l: List)
    requires ItemsDone(str, start, t, depth, p, items)
    ensures Done(str, start, l, |items|, p) && l.close == CLOSE
  {
    ItemList(t)
  }

  lemma ItemsOn(str: Text, start: nat, t: Tree, depth: nat, p: nat, i: nat, more: bool, items: seq<Item>)
    requires ItemsDone(str, start, t, depth, p, items)
    requires Goes(str, start, ItemsNext(str, start, t, depth, p, items), |items|, p, i, more)
    ensures ItemsGo(str, start, t, depth, p, i, more, items)
  {
  }

  lemma FirstItem(str: Text, start: nat, depth: nat, t: Tree)
    requires 0 < start <= |str|
    ensures var j := Skip(str, start);
      && (j < |str| ==> Between(str, start, start, j + 1, str[j] != CLOSE, CLOSE, 0))
      && (TreeAt(str, start - 1, t, depth) && t.Array? ==>
            j < |str| && ItemsGo(str, start, t, depth, start, j + 1, str[j] != CLOSE, []))
  {
    hide Skip, Between, Goes, Done, ListAt, IsSpace;
    var good := TreeAt(str, start - 1, t, depth) && t.Array?;
    if good { ArrayHere(str, start, t, depth); }
    FirstFound(str, start, if good then ItemList(t) else List([], [], [], 0), CLOSE);
    if good { GoesDone(str, start, ItemList(t), 0, start, Skip(str, start) + 1, str[Skip(str, start)] != CLOSE); }
  }

  lemma GoesDone(str: Text, start: nat, l: List, k: nat, p: nat, i: nat, more: bool)
    requires Goes(str, start, l, k, p, i, more)
    ensures Done(str, start, l, k, p)
  {
  }

  lemma ItemGoes(str: Text, start: nat, t: Tree, depth: nat, p: nat, i: nat, items: seq<Item>)
    requires ItemsGo(str, start, t, depth, p, i, true, items)
    ensures t.Array? && |items| < |t.items| && i > 0 && TreeAt(str, i - 1, t.items[|items|].tree, depth + 1)
  {
    hide ListAt, Begin, WellFormed, TreeAt;
    ItemHere(str, start, t, |items|, depth);
  }

  lemma ItemDone(str: Text, start: nat, t: Tree, depth: nat, p: nat, q: nat, i: nat, items: seq<Item>, item: Json)
    requires ItemsGo(str, start, t, depth, p, q + 1, true, items)
    requires IsRead(str, q, i, t.items[|items|].tree, depth + 1, item)
    ensures p <= q && ItemsDone(str, start, t, depth, i, items + [Item(str[p..q], t.items[|items|].tree)])
  {
    hide ListAt, Begin, WellFormed, Spell, ValueOf;
    var k := |items|;
    ItemHere(str, start, t, k, depth);
    assert Item(str[p..q], t.items[k].tree) == t.items[k];
    assert t.items[..k + 1] == t.items[..k] + [t.items[k]];
  }

  /** Items have been read up to `p`, and the parser has gone on to `i`. */
  ghost predicate ItemsState(str: Text, start: nat, p: nat, i: nat, more: bool, items: seq<Item>, data: seq<Json>,
                             depth: nat) {
    Between(str, start, p, i, more, CLOSE, |items|) && ItemsRead(str, start, p, items, data, depth)
  }

  lemma MoreItems(str: Text, start: nat, p: nat, i: nat, items: seq<Item>, data: seq<Json>, tree: Tree, item: Json,
                  depth: nat, i': nat)
    requires ItemsState(str, start, p, i, true, items, data, depth) && IsRead(str, i - 1, i', tree, depth + 1, item)
    ensures p < i <= i' && start <= i'
    ensures ItemsRead(str, start, i', items + [Item(str[p..i - 1], tree)], data + [item], depth)
  {
    hide BeforeOk, IsSpace, Spell, WellFormed, ValueOf, Concat;
    ItemRead(str, start, p, i - 1, i', items, data, tree, item, depth);
  }

  lemma ItemToken(str: Text, start: nat, p: nat, i: nat, items: seq<Item>, data: seq<Json>, depth: nat)
    requires i > 0 && ItemsState(str, start, p, i, true, items, data, depth)
    ensures Skip(str, i - 1) == i - 1
  {
  }

  /** Up to `p` the text of `items` has been read, and their values are `data`. */
  ghost predicate ItemsRead(str: Text, start: nat, p: nat, items: seq<Item>, data: seq<Json>, depth: nat) {
    && start <= p <= |str| && str[start..p] == Concat(ItemTexts(items)) && ItemsOk(items, depth + 1)
    && data == ItemValues(items)
  }

  lemma NothingRead(str: Text, start: nat, depth: nat)
    requires start <= |str|
    ensures ItemsRead(str, start, start, [], [], depth) && EntriesRead(str, start, start, [], [], depth)
  {
    assert EntryValues([]) == [];
  }

  /** One more item. */
  lemma ItemRead(str: Text, start: nat, p: nat, q: nat, i: nat, items: seq<Item>, data: seq<Json>, tree: Tree,
                 item: Json, depth: nat)
    requires ItemsRead(str, start, p, items, data, depth) && IsRead(str, q, i, tree, depth + 1, item)
    requires p <= q && BeforeOk(|items|, str[p..q])
    ensures q < i && ItemsRead(str, start, i, items + [Item(str[p..q], tree)], data + [item], depth)
  {
    hide Concat, Spell, ValueOf, WellFormed, BeforeOk;
    var it := Item(str[p..q], tree);
    assert ItemTexts(items + [it]) == ItemTexts(items) + [SpellItem(it)];
    ConcatAppend(ItemTexts(items), SpellItem(it));
    Slices(str, start, p, q, i);
    assert ItemValues(items + [it]) == ItemValues(items) + [item];
    SpellStart(tree, depth + 1);
  }

  /** The whole array; it is `t0` when `t0` stands there. */
  lemma ArrayRead(str: Text, start: nat, p: nat, i: nat, items: seq<Item>, data: seq<Json>, depth: nat, t0: Tree)
    returns (t: Tree)
    requires ItemsState(str, start, p, i, false, items, data, depth)
    requires 0 < start && str[start - 1] == OPEN && depth <= MAX_DEPTH
    ensures IsRead(str, start - 1, i, t, depth, Arr(data))
    ensures ItemsGo(str, start, t0, depth, p, i, false, items) ==> t == t0
  {
    hide Concat, Spell, ValueOf, WellFormed, AllSpace, ItemsOk, ListAt, Begin;
    t := Array(items, str[p..i - 1]);
    ArrayIs(items, str[p..i - 1], depth);
    Enclosed(str, start, p, i);
    if ItemsGo(str, start, t0, depth, p, i, false, items) {
      assert t0.items[..|items|] == t0.items;
      NoMoreParts(str, start, ItemList(t0));
    }
  }

  // ---------- objects ----------

  /** A key, a colon and a value were read. */
  ghost predicate MemberRead(str: Text, i: nat, j: nat, e: Entry, depth: nat, key: Text, val: Json) {
    && i <= j <= |str| && AllLegal(e.key) && Around(e.colon, COLON) && WellFormed(e.tree, depth + 1)
    && str[i..j] == KeyAndValue(e) && EntryValue(e) == Member(key, val)
  }

  ghost predicate MemberAt(str: Text, i: nat, e: Entry, depth: nat) {
    && AllLegal(e.key) && Around(e.colon, COLON) && WellFormed(e.tree, depth + 1)
    && StandsAt(str, i, KeyAndValue(e)) && EndsAt(str, i + |KeyAndValue(e)|)
  }

  /** The parts of an entry that stands in a text; `i` is after the quote. */
  lemma KeyAt(str: Text, i: nat, e: Entry, depth: nat)
    requires 0 < i <= |str| && MemberAt(str, i - 1, e, depth)
    ensures StringAt(str, i, e.key) && ColonAt(str, i + |SpellAll(e.key)| + 1, e, depth)
  {
    hide SpellAll, Spell, WellFormed, AllLegal, Around, StandsAt;
    KeySplit(str, i, SpellAll(e.key), e.colon + Spell(e.tree));
  }

  lemma KeySplit(str: Text, i: nat, key: Text, val: Text)
    requires 0 < i && StandsAt(str, i - 1, [QUOTE] + (key + ([QUOTE] + val)))
    ensures StandsAt(str, i, key + [QUOTE]) && StandsAt(str, i + |key| + 1, val)
    ensures |[QUOTE] + (key + ([QUOTE] + val))| == |key| + |val| + 2
  {
    hide StandsAt;
    StandsSplit(str, i - 1, [QUOTE], key + ([QUOTE] + val));
    assert key + ([QUOTE] + val) == (key + [QUOTE]) + val;
    StandsSplit(str, i, key + [QUOTE], val);
  }

  /** What follows the key. */
  ghost predicate ColonAt(str: Text, c: nat, e: Entry, depth: nat) {
    && Around(e.colon, COLON) && WellFormed(e.tree, depth + 1)
    && StandsAt(str, c, e.colon + Spell(e.tree)) && EndsAt(str, c + |e.colon + Spell(e.tree)|)
  }

  lemma ColonHere(str: Text, c: nat, e: Entry, depth: nat)
    requires ColonAt(str, c, e, depth)
    ensures var q := c + |e.colon|;
      && q <= |str| && str[c..q] == e.colon && TreeAt(str, q, e.tree, depth + 1)
      && var j := Skip(str, c); j < |str| && str[j] == COLON && Skip(str, j + 1) == q && Skip(str, q) == q
  {
    hide Spell, WellFormed, Around, Skip;
    StandsSplit(str, c, e.colon, Spell(e.tree));
    Starts(str, c + |e.colon|, e.tree, depth + 1);
    AroundAt(str, c, e.colon, COLON);
  }

  ghost predicate ColonRead(str: Text, c: nat, q: nat, i: nat, tree: Tree, depth: nat, val: Json) {
    && c <= |str| && Skip(str, c) < |str| && str[Skip(str, c)] == COLON && q == Skip(str, Skip(str, c) + 1)
    && IsRead(str, q, i, tree, depth + 1, val)
  }

  lemma KeyEnd(str: Text, start: nat, c: nat, key: seq<Piece>, out: Text)
    requires StringRead(str, start, c, key, out)
    ensures start < c <= |str| && c == start + |SpellAll(key)| + 1
  {
    assert |str[start..c]| == c - start;
  }

  lemma EntryText(str: Text, start: nat, c: nat, q: nat, i: nat, e: Entry)
    requires 0 < start <= c <= q <= i <= |str| && str[start - 1] == QUOTE && str[start..c] == SpellAll(e.key) + [QUOTE]
    requires str[c..q] == e.colon && str[q..i] == Spell(e.tree)
    ensures str[start - 1..i] == KeyAndValue(e)
  {
    hide SpellAll, Spell;
    assert str[start - 1..i] == [QUOTE] + str[start..i];
    Slices(str, start, c, q, i);
    Associates(SpellAll(e.key), [QUOTE], e.colon + Spell(e.tree));
  }

  /** What was read makes up an entry; it is `e` when `e` stands there. */
  lemma EntryRead(str: Text, start: nat, c: nat, q: nat, i: nat, ps: seq<Piece>, tree: Tree, depth: nat, key: Text,
                  val: Json, e: Entry) returns (read: Entry)
    requires 0 < start < c <= |str| && str[start - 1] == QUOTE && StringRead(str, start, c, ps, key)
    requires ColonRead(str, c, q, i, tree, depth, val)
    ensures MemberRead(str, start - 1, i, read, depth, key, val)
    ensures ps == e.key && ColonAt(str, c, e, depth) && q == c + |e.colon| && tree == e.tree ==>
      read == e.(before := [])
  {
    hide SpellAll, Spell, WellFormed, AllLegal, Around, Skip, Meaning, ColonAt, KeyAndValue, ValueOf;
    if ColonAt(str, c, e, depth) { ColonHere(str, c, e, depth); }
    read := Entry([], ps, str[c..q], tree);
    AroundFrom(str, c, COLON);
    EntryText(str, start, c, q, i, read);
  }

  function KeyAndValue(e: Entry): Text { [QUOTE] + (SpellAll(e.key) + ([QUOTE] + (e.colon + Spell(e.tree)))) }

  ghost function EntryList(t: Tree): List
    requires t.Object?
  {
    List(EntryTexts(t.entries), seq(|t.entries|, k requires 0 <= k < |t.entries| => t.entries[k].before), t.end,
         CLOSE_OBJECT)
  }

  lemma ObjectHere(str: Text, start: nat, t: Tree, depth: nat)
    requires 0 < start <= |str| && TreeAt(str, start - 1, t, depth) && t.Object?
    ensures ListAt(str, start, EntryList(t))
  {
    hide StandsAt, Spell, WellFormed, AllSpace, BeforeOk, SpellAll;
    ObjectIs(t.entries, t.end, depth);
    FirstAt(str, start - 1, Spell(t));
    assert Spell(t)[1..] == Concat(EntryTexts(t.entries)) + (t.end + [CLOSE_OBJECT]);
    forall k | 0 <= k < |t.entries|
      ensures PartOk(k, t.entries[k].before, SpellEntry(t.entries[k]), CLOSE_OBJECT)
    {
      assert EntryOk(k, t.entries[k], depth + 1);
    }
  }

  /** At the `k`th entry. */
  lemma EntryHere(str: Text, start: nat, t: Tree, k: nat, depth: nat)
    requires t.Object? && WellFormed(t, depth) && ListAt(str, start, EntryList(t)) && k < |t.entries|
    ensures var p := Begin(start, EntryList(t), k);
      var q := p + |t.entries[k].before|;
      && q <= |str| && str[p..q] == t.entries[k].before && MemberAt(str, q, t.entries[k], depth)
      && q + |KeyAndValue(t.entries[k])| == Begin(start, EntryList(t), k + 1)
  {
    hide ListAt, Begin, StandsAt, Skip, Spell, EndsAt, IsSpace, SpellAll;
    var l, e := EntryList(t), t.entries[k];
    NextPartAt(str, start, l, k);
    PartEnds(str, start, l, k + 1);
    StandsSplit(str, Begin(start, l, k), e.before, KeyAndValue(e));
    StandsIs(str, Begin(start, l, k), e.before);
  }

  ghost predicate EntriesRead(str: Text, start: nat, p: nat, entries: seq<Entry>, data: seq<Member>, depth: nat) {
    && start <= p <= |str| && str[start..p] == Concat(EntryTexts(entries)) && EntriesOk(entries, depth + 1)
    && data == AssignAll(EntryValues(entries))
  }

  /** One more entry. */
  lemma EntryAdded(str: Text, start: nat, p: nat, q: nat, i: nat, entries: seq<Entry>, data: seq<Member>, e: Entry,
                   key: Text, val: Json, depth: nat)
    requires EntriesRead(str, start, p, entries, data, depth) && MemberRead(str, q, i, e, depth, key, val)
    requires p <= q && BeforeOk(|entries|, str[p..q])
    ensures q < i
    ensures EntriesRead(str, start, i, entries + [e.(before := str[p..q])], Assign(data, key, val), depth)
  {
    hide Concat, Spell, ValueOf, WellFormed, BeforeOk, SpellAll, Meaning, AllLegal, Around, Assign;
    var e' := e.(before := str[p..q]);
    assert EntryTexts(entries + [e']) == EntryTexts(entries) + [SpellEntry(e')];
    ConcatAppend(EntryTexts(entries), SpellEntry(e'));
    Slices(str, start, p, q, i);
    assert EntryValues(entries + [e']) == EntryValues(entries) + [Member(key, val)];
    assert (EntryValues(entries) + [Member(key, val)])[..|entries|] == EntryValues(entries);
  }

  /** The entries read up to `p` are the first ones of `t`. */
  ghost predicate EntriesDone(str: Text, start: nat, t: Tree, depth: nat, p: nat, entries: seq<Entry>) {
    && t.Object? && WellFormed(t, depth) && |entries| <= |t.entries| && entries == t.entries[..|entries|]
    && Done(str, start, EntryList(t), |entries|, p)
  }

  /** And the parser is where `t` goes on. */
  ghost predicate EntriesGo(str: Text, start: nat, t: Tree, depth: nat, p: nat, i: nat, more: bool,
                            entries: seq<Entry>) {
    EntriesDone(str, start, t, depth, p, entries) && Goes(str, start, EntryList(t), |entries|, p, i, more)
  }

  ghost function EntriesNext(str: Text, start: nat, t: Tree, depth: nat, p: nat, entries: seq<Entry>): (l: List)
    requires EntriesDone(str, start, t, depth, p, entries)
    ensures Done(str, start, l, |entries|, p) && l.close == CLOSE_OBJECT
  {
    EntryList(t)
  }

  lemma EntriesOn(str: Text, start: nat, t: Tree, depth: nat, p: nat, i: nat, more: bool, entries: seq<Entry>)
    requires EntriesDone(str, start, t, depth, p, entries)
    requires Goes(str, start, EntriesNext(str, start, t, depth, p, entries), |entries|, p, i, more)
    ensures EntriesGo(str, start, t, depth, p, i, more, entries)
  {
  }

  lemma FirstEntry(str: Text, start: nat, depth: nat, t: Tree)
    requires 0 < start <= |str|
    ensures var j := Skip(str, start);
      && (j < |str| ==> Between(str, start, start, j + 1, str[j] != CLOSE_OBJECT, CLOSE_OBJECT, 0))
      && (TreeAt(str, start - 1, t, depth) && t.Object? ==>
            j < |str| && EntriesGo(str, start, t, depth, start, j + 1, str[j] != CLOSE_OBJECT, []))
  {
    hide Skip, Between, Goes, Done, ListAt, IsSpace;
    var good := TreeAt(str, start - 1, t, depth) && t.Object?;
    if good { ObjectHere(str, start, t, depth); }
    FirstFound(str, start, if good then EntryList(t) else List([], [], [], 0), CLOSE_OBJECT);
    if good {
      GoesDone(str, start, EntryList(t), 0, start, Skip(str, start) + 1, str[Skip(str, start)] != CLOSE_OBJECT);
    }
  }

  /** The key of the next entry is where the parser is. */
  lemma EntryQuote(str: Text, start: nat, t: Tree, depth: nat, p: nat, i: nat, entries: seq<Entry>)
    requires EntriesGo(str, start, t, depth, p, i, true, entries)
    ensures 0 < i <= |str| && str[i - 1] == QUOTE
  {
    hide ListAt, Begin, WellFormed;
    EntryHere(str, start, t, |entries|, depth);
    FirstAt(str, i - 1, KeyAndValue(t.entries[|entries|]));
  }

  lemma EntriesBound(str: Text, start: nat, p: nat, entries: seq<Entry>, data: seq<Member>, depth: nat)
    requires EntriesRead(str, start, p, entries, data, depth)
    ensures start <= p
  {
  }

  lemma EntryGoes(str: Text, start: nat, t: Tree, depth: nat, p: nat, i: nat, entries: seq<Entry>)
    requires EntriesGo(str, start, t, depth, p, i, true, entries)
    ensures t.Object? && |entries| < |t.entries| && i > 0 && MemberAt(str, i - 1, t.entries[|entries|], depth)
  {
    hide ListAt, Begin, WellFormed, MemberAt;
    EntryHere(str, start, t, |entries|, depth);
  }

  lemma EntryDone(str: Text, start: nat, t: Tree, depth: nat, p: nat, q: nat, i: nat, entries: seq<Entry>, e: Entry,
                  key: Text, val: Json)
    requires EntriesGo(str, start, t, depth, p, q + 1, true, entries) && MemberRead(str, q, i, e, depth, key, val)
    requires e == t.entries[|entries|].(before := [])
    ensures p <= q && EntriesDone(str, start, t, depth, i, entries + [e.(before := str[p..q])])
  {
    hide ListAt, Begin, WellFormed, AllLegal, Around, SpellAll, Spell;
    var k := |entries|;
    EntryHere(str, start, t, k, depth);
    assert e.(before := str[p..q]) == t.entries[k];
    assert KeyAndValue(e) == KeyAndValue(t.entries[k]);
    assert t.entries[..k + 1] == t.entries[..k] + [t.entries[k]];
  }

  /** Entries have been read up to `p`, and the parser has gone on to `i`. */
  ghost predicate EntriesState(str: Text, start: nat, p: nat, i: nat, more: bool, entries: seq<Entry>,
                               data: seq<Member>, depth: nat) {
    Between(str, start, p, i, more, CLOSE_OBJECT, |entries|) && EntriesRead(str, start, p, entries, data, depth)
  }

  lemma MoreEntries(str: Text, start: nat, p: nat, i: nat, entries: seq<Entry>, data: seq<Member>, e: Entry, key: Text,
                    val: Json, depth: nat, i': nat)
    requires EntriesState(str, start, p, i, true, entries, data, depth)
    requires MemberRead(str, i - 1, i', e, depth, key, val)
    ensures p < i && i <= i' && start <= i'
    ensures EntriesRead(str, start, i', entries + [e.(before := str[p..i - 1])], Assign(data, key, val), depth)
  {
    hide BeforeOk, IsSpace, MemberRead, EntriesRead;
    EntryAdded(str, start, p, i - 1, i', entries, data, e, key, val, depth);
    EntriesBound(str, start, i', entries + [e.(before := str[p..i - 1])], Assign(data, key, val), depth);
  }

  /** The whole object; it is `t0` when `t0` stands there. */
  lemma ObjectRead(str: Text, start: nat, p: nat, i: nat, entries: seq<Entry>, data: seq<Member>, depth: nat, t0: Tree)
    returns (t: Tree)
    requires EntriesState(str, start, p, i, false, entries, data, depth)
    requires 0 < start && str[start - 1] == OPEN_OBJECT && depth <= MAX_DEPTH
    ensures IsRead(str, start - 1, i, t, depth, Obj(data))
    ensures EntriesGo(str, start, t0, depth, p, i, false, entries) ==> t == t0
  {
    hide Concat, Spell, ValueOf, WellFormed, AllSpace, EntriesOk, ListAt, Begin;
    t := Object(entries, str[p..i - 1]);
    ObjectIs(entries, str[p..i - 1], depth);
    Enclosed(str, start, p, i);
    if EntriesGo(str, start, t0, depth, p, i, false, entries) {
      assert t0.entries[..|entries|] == t0.entries;
      NoMoreParts(str, start, EntryList(t0));
    }
  }

  class Parser {
    const str: Text
    var i: nat
    var failed: bool

    constructor (str: Text)
      ensures this.str == str && i == 0 && !failed
    {
      this.str, i, failed := str, 0, false;
    }

    // ---------- tokens ----------

    method ConsumeWhitespace()
      requires i <= |str|
      modifies this`i
      ensures i == Skip(str, old(i))
    {
      while IsSpace(At(str, i))
        invariant i <= |str| && Skip(str, i) == Skip(str, old(i))
        decreases |str| - i
      {
        i := i + 1;
      }
    }

    /** `get_next_token`: the next character that is not white space; 0 and failure at the end. */
    method NextToken() returns (ch: byte)
      requires i <= |str|
      modifies this`i, this`failed
      ensures var j := Skip(str, old(i));
        if old(failed) || j == |str| then failed && ch == 0 && i == j else !failed && ch == str[j] && i == j + 1
    {
      ConsumeWhitespace();
      if failed {
        return 0;
      }
      if i == |str| {
        failed := true;
        return 0;
      }
      ch := str[i];
      i := i + 1;
    }

    // ---------- strings ----------

    /** One step of `parse_string`, after a backslash: the escape `p`, unless what follows is none. */
    method ParseEscape(out0: Text, last0: int, ghost ps: seq<Piece>) returns (out: Text, last: int, ghost p: Piece)
      requires 0 < i < |str| && str[i - 1] == BACKSLASH && Held(ps, out0, last0)
      modifies this`i, this`failed
      ensures old(i) < i <= |str| && (old(failed) ==> failed)
      ensures EscapeAt(str, old(i)) ==>
        failed == old(failed) && !p.Raw? && Legal(p) && str[old(i) - 1..i] == Spelt(p)
      ensures !EscapeAt(str, old(i)) ==> failed
      ensures EscapeAt(str, old(i)) ==> Held(ps + [p], out, last)
    {
      hide Utf8, CodePoint, Held, Meaning;
      HeldBounds(ps, out0, last0);
      var ch := str[i];
      i := i + 1;
      out, last, p := out0, last0, Raw(0);
      if ch == LETTER_U {
        if i + 4 > |str| || CodePoint(str[i..i + 4]) < 0 {
          failed := true;
          return;
        }
        var c := Combine(last0, CodePoint(str[i..i + 4]));
        p := Unit(str[i..i + 4]);
        HeldUnit(ps, out0, last0, p);
        i := i + 4;
        return out0 + c.0, c.1, p;
      }
      out, last := out0 + Utf8(last0), -1;
      if Unescape(ch) < 0 {
        failed := true;
        return;
      }
      p := Letter(ch);
      HeldByte(ps, out0, last0, p);
      out := out + [Unescape(ch)];
    }

    /** One step of `parse_string`, after a character that is not the closing quote: a byte as it is, or an escape. */
    method ParsePiece(ch: byte, out0: Text, last0: int, ghost ps: seq<Piece>)
      returns (out: Text, last: int, ghost p: Piece)
      requires 0 < i <= |str| && str[i - 1] == ch != QUOTE && Held(ps, out0, last0) && !failed
      modifies this`i, this`failed
      ensures old(i) <= i <= |str|
      ensures failed <==> ch <= 0x1f || (ch == BACKSLASH && !EscapeAt(str, old(i)))
      ensures !failed ==> Legal(p) && str[old(i) - 1..i] == Spelt(p) && Held(ps + [p], out, last)
    {
      hide Utf8, CodePoint, Held, Meaning;
      out, last, p := out0, last0, Raw(ch);
      HeldBounds(ps, out0, last0);
      if ch <= 0x1f {
        failed := true;
        return;
      }
      if ch != BACKSLASH {
        HeldByte(ps, out0, last0, p);
        return out0 + Utf8(last0) + [ch], -1, p;
      }
      if i == |str| {
        failed := true;
        return;
      }
      out, last, p := ParseEscape(out, last, ps);
    }

    /**
     * `parse_string`, after the opening quote: it succeeds when the text of some pieces and a quote follow,
     * and then `read` are those pieces and the result is what they stand for.
     */
    method ParseString(ghost ps: seq<Piece>) returns (out: Text, ghost read: seq<Piece>)
      requires i <= |str| && !failed
      modifies this`i, this`failed
      ensures old(i) <= i <= |str|
      ensures !failed ==> StringRead(str, old(i), i, read, out)
      ensures StringAt(str, old(i), ps) ==> !failed && read == ps
    {
      hide Utf8, EscapeAt, Scanned, Remains, StringAt, StringRead, Spelt, Legal, Held;
      ScanStart(str, i, ps);
      ghost var good := StringAt(str, i, ps);
      out, read := [], [];
      var last := -1;
      while true
        invariant old(i) <= i <= |str| && !failed && Scanned(str, old(i), i, read, out, last)
        invariant good ==> Remains(str, i, read, ps)
        decreases |str| - i
      {
        ScanBounds(str, old(i), i, read, out, last);
        if good { RemainsNext(str, i, read, ps); }
        if i == |str| {
          failed := true;
          return;
        }
        var ch := str[i];
        i := i + 1;
        if ch == QUOTE {
          ScanEnd(str, old(i), i - 1, read, out, last);
          out := out + Utf8(last);
          return;
        }
        ghost var at, p, out0, last0 := i - 1, Raw(ch), out, last;
        out, last, p := ParsePiece(ch, out, last, read);
        if failed {
          return;
        }
        if good { RemainsOne(str, at, i, read, ps, p); }
        ScanOne(str, old(i), at, i, read, out0, last0, p, out, last);
        read := read + [p];
      }
    }

    // ---------- numbers ----------

    method SkipDigits()
      requires i <= |str|
      modifies this`i
      ensures i == DigitsEnd(str, old(i))
    {
      while IsDigit(At(str, i))
        invariant old(i) <= i <= |str| && DigitsEnd(str, i) == DigitsEnd(str, old(i))
        decreases |str| - i
      {
        i := i + 1;
      }
    }

    /** The integer part: a single zero, or digits that do not start with one. */
    method IntegerPart() returns (ok: bool)
      requires i <= |str| && !failed
      modifies this`i, this`failed
      ensures old(i) <= i <= |str| && failed == !ok
      ensures ok <==> WholeRead(str, old(i), DigitsEnd(str, old(i)))
      ensures ok ==> i == DigitsEnd(str, old(i))
    {
      DigitsStop(str, i);
      ok := true;
      if At(str, i) == ZERO {
        i := i + 1;
        if IsDigit(At(str, i)) {
          failed := true;
          return false;
        }
      } else if IsDigit(At(str, i)) {
        i := i + 1;
        SkipDigits();
      } else {
        failed := true;
        return false;
      }
    }

    /** The fraction of a double. */
    method Fraction(ghost frac: Text) returns (ok: bool)
      requires i <= |str| && !failed
      modifies this`i, this`failed
      ensures old(i) <= i <= |str| && failed == !ok
      ensures ok ==> FracOk(str[old(i)..i]) && (At(str, old(i)) == POINT ==> i > old(i))
      ensures
        (&& FracOk(frac) && StandsAt(str, old(i), frac) && !IsDigit(At(str, old(i) + |frac|))
         && (At(str, old(i)) == POINT <==> frac != []))
        ==> ok && i == old(i) + |frac|
    {
      hide StandsAt, AllDigits, DigitsEnd, FracOk;
      ghost var good := FracOk(frac) && StandsAt(str, i, frac) && !IsDigit(At(str, i + |frac|)) && frac != [];
      NoneOk(str, i);
      ok := true;
      if At(str, i) == POINT {
        if good { FractionAt(str, i, frac); }
        i := i + 1;
        if !IsDigit(At(str, i)) {
          failed := true;
          return false;
        }
        DigitsStop(str, i);
        DigitsMore(str, i);
        SkipDigits();
        FractionRead(str, old(i), i);
      }
    }

    /** The exponent of a double. */
    method Exponent(ghost exp: Text) returns (ok: bool)
      requires i <= |str| && !failed
      modifies this`i, this`failed
      ensures old(i) <= i <= |str| && failed == !ok
      ensures ok ==> ExpOk(str[old(i)..i]) && (IsE(At(str, old(i))) ==> i > old(i))
      ensures
        (&& ExpOk(exp) && StandsAt(str, old(i), exp) && !IsDigit(At(str, old(i) + |exp|))
         && (IsE(At(str, old(i))) <==> exp != []))
        ==> ok && i == old(i) + |exp|
    {
      hide StandsAt, AllDigits, DigitsEnd, ExpOk;
      ghost var good := ExpOk(exp) && StandsAt(str, i, exp) && !IsDigit(At(str, i + |exp|)) && exp != [];
      NoneOk(str, i);
      ok := true;
      if IsE(At(str, i)) {
        if good { ExponentAt(str, i, exp); }
        i := i + 1;
        if IsSign(At(str, i)) {
          i := i + 1;
        }
        ghost var d := i;
        if !IsDigit(At(str, i)) {
          failed := true;
          return false;
        }
        DigitsStop(str, i);
        DigitsMore(str, i);
        SkipDigits();
        ExponentRead(str, old(i), d, i);
      }
    }

    /** Fraction and exponent. */
    method DoublePart(ghost n: Numeral) returns (ok: bool, ghost e: nat)
      requires i <= |str| && !failed
      modifies this`i, this`failed
      ensures old(i) <= i <= |str| && failed == !ok
      ensures ok ==> old(i) <= e <= i && DoubleRead(str, old(i), e, i)
      ensures ok && (At(str, old(i)) == POINT || IsE(At(str, old(i)))) ==> old(i) < i
      ensures NumeralOk(n) && DoubleAt(str, old(i), n) ==>
        ok && e == old(i) + |n.frac| && i == e + |n.exp|
    {
      hide FracOk, ExpOk, StandsAt, IsE, IsDigit;
      e := i;
      ok := Fraction(n.frac);
      if !ok {
        return;
      }
      e := i;
      ok := Exponent(n.exp);
    }

    /** Sign and integer part; with a number `n` here, they are those of `n`. */
    method WholePart(ghost n: Numeral) returns (ok: bool, ghost w: nat)
      requires i <= |str| && !failed
      modifies this`i, this`failed
      ensures old(i) <= i <= |str| && failed == !ok && (ok ==> old(i) <= w <= i && WholeRead(str, w, i))
      ensures ok ==> w == old(i) + if At(str, old(i)) == MINUS then 1 else 0
      ensures NumberHere(str, old(i), n) ==> ok && i == w + |n.whole| && DoubleAt(str, i, n)
    {
      hide DigitsEnd, StandsAt, NumberAt, DoubleAt, WholeRead, IsDigit, NumeralOk;
      if At(str, i) == MINUS {
        i := i + 1;
      }
      w := i;
      if NumberHere(str, old(i), n) { NumberIs(str, w, n); }
      ok := IntegerPart();
    }

    /** `parse_number`: the longest number of the grammar, when one stands here. */
    method ParseNumber(ghost n: Numeral) returns (r: Json, ghost read: Numeral)
      requires i <= |str| && !failed
      modifies this`i, this`failed
      ensures old(i) <= i <= |str|
      ensures !failed ==> NumeralOk(read) && str[old(i)..i] == NumeralText(read) && r == NumeralValue(read)
      ensures NumeralOk(n) && StandsAt(str, old(i), NumeralText(n)) && EndsAt(str, old(i) + |NumeralText(n)|) ==>
        !failed && read == n
    {
      hide NumeralOk, NumeralText, NumeralValue, Stoi, IntegerShaped, WholeRead, DoubleRead, DoubleAt, NumberHere;
      hide EndsAt, StandsAt, At, IsE;
      if NumeralOk(n) && StandsAt(str, i, NumeralText(n)) && EndsAt(str, i + |NumeralText(n)|) {
        NumberParts(str, i, n);
      }
      var start := i;
      r, read := Null, n;
      var ok, w := WholePart(n);
      if ok {
        ghost var f, e := i, i;
        if At(str, i) != POINT && !IsE(At(str, i)) && i - start <= 9 {
          read := IntegerRead(str, start, w, f, n);
          r := Int(Stoi(str[start..i]));
        } else {
          ok, e := DoublePart(n);
          if ok {
            read := NumberRead(str, start, w, f, e, i, n);
            r := Double(str[start..i]);
          }
        }
      }
    }

    // ---------- values ----------

    /** `expect`: the rest of a word whose first letter was just read. */
    method Expect(expected: Text, res: Json) returns (r: Json)
      requires 0 < i <= |str| && |expected| > 0 && !failed
      modifies this`i, this`failed
      ensures i <= |str|
      ensures failed <==> !StandsAt(str, old(i) - 1, expected)
      ensures !failed ==> r == res && i == old(i) - 1 + |expected|
    {
      i := i - 1;
      if expected <= str[i..] {
        assert str[i..][..|expected|] == str[i..i + |expected|];
        i := i + |expected|;
        return res;
      }
      failed := true;
      return Null;
    }

    /** A number, as a tree. */
    method NumberTree(ghost depth: nat, ghost t: Tree) returns (r: Json, ghost read: Tree)
      requires i <= |str| && !failed && depth <= MAX_DEPTH
      modifies this`i, this`failed
      ensures i <= |str| && (!failed ==> IsRead(str, old(i), i, read, depth, r))
      ensures TreeAt(str, old(i), t, depth) && t.Number? ==> !failed && read == t
    {
      hide NumeralText, NumeralOk, NumeralValue, StandsAt, EndsAt;
      ghost var n;
      r, n := ParseNumber(if t.Number? then t.n else Numeral(false, [], [], []));
      read := Number(n);
    }

    /** A word, as a tree. */
    method WordTree(expected: Text, res: Json, ghost depth: nat, ghost t: Tree) returns (r: Json, ghost read: Tree)
      requires 0 < i <= |str| && !failed && depth <= MAX_DEPTH && (res.Null? || res.Bool?) && expected == WordText(res)
      modifies this`i, this`failed
      ensures i <= |str| && (!failed ==> IsRead(str, old(i) - 1, i, read, depth, r))
      ensures TreeAt(str, old(i) - 1, t, depth) && t == Word(res) ==> !failed && read == t
    {
      r := Expect(expected, res);
      read := Word(res);
    }

    /** A string after its opening quote, as a tree. */
    method QuotedTree(ghost depth: nat, ghost t: Tree) returns (r: Json, ghost read: Tree)
      requires 0 < i <= |str| && !failed && depth <= MAX_DEPTH && str[i - 1] == QUOTE
      modifies this`i, this`failed
      ensures i <= |str| && (!failed ==> IsRead(str, old(i) - 1, i, read, depth, r))
      ensures TreeAt(str, old(i) - 1, t, depth) && t.Quoted? ==> !failed && read == t
    {
      hide TreeAt, StringAt, StringRead, IsRead;
      ghost var good := TreeAt(str, i - 1, t, depth) && t.Quoted?;
      if good { QuotedAt(str, i, t, depth); }
      var s;
      ghost var ps;
      s, ps := ParseString(if good then t.ps else []);
      r, read := Str(s), Quoted(ps);
      if !failed { QuotedRead(str, old(i), i, ps, s, depth); }
    }

    /**
     * `parse_json`: it succeeds when a text of the grammar stands after the white space, and then `read` is
     * that text's tree and the result is its value.
     */
    method ParseJson(depth: nat, ghost t: Tree) returns (r: Json, ghost read: Tree)
      requires i <= |str| && depth <= MAX_DEPTH + 1
      modifies this`i, this`failed
      ensures i <= |str| && (old(failed) ==> failed)
      ensures !failed ==> IsRead(str, Skip(str, old(i)), i, read, depth, r)
      ensures !old(failed) && TreeAt(str, Skip(str, old(i)), t, depth) ==> !failed && read == t
      decreases MAX_DEPTH + 1 - depth, 5
    {
      hide TreeAt, IsRead, Skip;
      ghost var start, good := Skip(str, i), !failed && TreeAt(str, Skip(str, i), t, depth);
      r, read := Null, t;
      if good { Starts(str, start, t, depth); }
      if depth > MAX_DEPTH {
        failed := true;
        return;
      }
      var ch := NextToken();
      if failed {
        return;
      }
      if ch == MINUS || IsDigit(ch) {
        i := i - 1;
        r, read := NumberTree(depth, t);
      } else if ch == 116 {
        r, read := WordTree(TRUE_TEXT, Bool(true), depth, t);
      } else if ch == 102 {
        r, read := WordTree(FALSE_TEXT, Bool(false), depth, t);
      } else if ch == 110 {
        r, read := WordTree(NULL_TEXT, Null, depth, t);
      } else if ch == QUOTE {
        r, read := QuotedTree(depth, t);
      } else if ch == OPEN_OBJECT {
        r, read := ParseObject(depth, t);
      } else if ch == OPEN {
        r, read := ParseArray(depth, t);
      } else {
        failed := true;
      }
    }

    /** After an element: the closing character, or a comma and the first character of what follows. */
    method Separator(close: byte) returns (more: bool, ch: byte)
      requires i <= |str| && !failed && close != 0 && close != COMMA
      modifies this`i, this`failed
      ensures i <= |str|
      ensures var j := Skip(str, old(i));
        if j < |str| && str[j] == close then !more && !failed && i == j + 1
        else if j < |str| && str[j] == COMMA then
          var q := Skip(str, j + 1);
          more && if q < |str| then !failed && ch == str[q] && i == q + 1 else failed && ch == 0 && i == |str|
        else !more && failed
    {
      hide Skip;
      ch := NextToken();
      if ch == close {
        return false, ch;
      }
      if ch != COMMA {
        failed := true;
        return false, ch;
      }
      ch := NextToken();
      more := true;
    }

    /** After a part of an array or object: the closing character, or a comma and the start of the next part. */
    method NextPart(close: byte, ghost start: nat, ghost k: nat, ghost l: List) returns (more: bool, ch: byte)
      requires start <= i <= |str| && !failed && (close == CLOSE || close == CLOSE_OBJECT) && k > 0
      modifies this`i, this`failed
      ensures i <= |str| && (more || !failed ==> old(i) < i)
      ensures !failed ==> Between(str, start, old(i), i, more, close, k) && (more ==> ch == str[i - 1])
      ensures failed && more ==> ch == 0
      ensures Done(str, start, l, k, old(i)) && l.close == close ==> !failed && Goes(str, start, l, k, old(i), i, more)
    {
      hide Skip, Between, Done, Goes;
      NextFound(str, start, i, k, close, l);
      more, ch := Separator(close);
    }

    /** One item read and appended. */
    method AddItem(depth: nat, data0: seq<Json>, ghost start: nat, ghost p: nat, ghost items0: seq<Item>, ghost t: Tree)
      returns (data: seq<Json>, ghost items: seq<Item>)
      requires 0 < i <= |str| && depth <= MAX_DEPTH
      requires !failed ==> ItemsState(str, start, p, i, true, items0, data0, depth)
      modifies this`i, this`failed
      ensures i <= |str| && (old(failed) ==> failed)
      ensures !failed ==>
        old(i) <= i && start <= i && |items| == |items0| + 1 && ItemsRead(str, start, i, items, data, depth)
      ensures !old(failed) && ItemsGo(str, start, t, depth, p, old(i), true, items0) ==>
        !failed && ItemsDone(str, start, t, depth, i, items)
      decreases MAX_DEPTH + 1 - depth, 0
    {
      hide ItemsRead, ItemsGo, ItemsDone, ItemsState, TreeAt, IsRead, Skip;
      ghost var good := !failed && ItemsGo(str, start, t, depth, p, i, true, items0);
      if good { ItemGoes(str, start, t, depth, p, i, items0); }
      if !failed { ItemToken(str, start, p, i, items0, data0, depth); }
      data, items := data0, items0;
      i := i - 1;
      var item;
      ghost var tree;
      item, tree := ParseJson(depth + 1, if good then t.items[|items0|].tree else t);
      if failed {
        return;
      }
      MoreItems(str, start, p, old(i), items, data, tree, item, depth, i);
      if good { ItemDone(str, start, t, depth, p, old(i) - 1, i, items, item); }
      items, data := items + [Item(str[p..old(i) - 1], tree)], data + [item];
    }

    /** The items of an array, from the first character of the first one. */
    method ParseItems(depth: nat, ghost start: nat, ghost t: Tree)
      returns (data: seq<Json>, ghost items: seq<Item>, ghost p: nat)
      requires 0 < i <= |str| && depth <= MAX_DEPTH && start <= |str|
      requires !failed ==> ItemsState(str, start, start, i, true, [], [], depth)
      modifies this`i, this`failed
      ensures i <= |str| && (old(failed) ==> failed)
      ensures !failed ==> ItemsState(str, start, p, i, false, items, data, depth)
      ensures !old(failed) && ItemsGo(str, start, t, depth, start, old(i), true, []) ==>
        !failed && ItemsGo(str, start, t, depth, p, i, false, items)
      decreases MAX_DEPTH + 1 - depth, 1
    {
      hide ItemsRead, Between, ItemsDone, ItemsGo, Done, Goes;
      ghost var good := !failed && ItemsGo(str, start, t, depth, start, i, true, []);
      data, items, p := [], [], start;
      var more, ch := true, 0;
      while more
        invariant 0 < i <= |str| && (old(failed) ==> failed) && (failed ==> more)
        invariant !failed ==> ItemsState(str, start, p, i, more, items, data, depth)
        invariant good ==> !failed && ItemsGo(str, start, t, depth, p, i, more, items)
        decreases more, |str| - i
      {
        data, items := AddItem(depth, data, start, p, items, t);
        if failed {
          return;
        }
        p := i;
        ghost var l := if good then ItemsNext(str, start, t, depth, p, items) else List([], [], [], 0);
        more, ch := NextPart(CLOSE, start, |items|, l);
        if good { ItemsOn(str, start, t, depth, p, i, more, items); }
        if failed && !more {
          return;
        }
      }
    }

    /** An array, after the opening bracket. */
    method ParseArray(depth: nat, ghost t: Tree) returns (r: Json, ghost read: Tree)
      requires 0 < i <= |str| && !failed && depth <= MAX_DEPTH && str[i - 1] == OPEN
      modifies this`i, this`failed
      ensures i <= |str| && (!failed ==> IsRead(str, old(i) - 1, i, read, depth, r))
      ensures TreeAt(str, old(i) - 1, t, depth) && t.Array? ==> !failed && read == t
      decreases MAX_DEPTH + 1 - depth, 2
    {
      hide IsRead, TreeAt, ItemsRead, EntriesRead, Skip, ItemsGo, Between;
      ghost var start := i;
      ghost var items: seq<Item>, p: nat := [], i;
      r, read := Null, t;
      FirstItem(str, start, depth, t);
      NothingRead(str, start, depth);
      var ch := NextToken();
      if ch == CLOSE {
        read := ArrayRead(str, start, start, i, [], [], depth, t);
        return Arr([]), read;
      }
      var data;
      data, items, p := ParseItems(depth, start, t);
      if failed {
        return;
      }
      read := ArrayRead(str, start, p, i, items, data, depth, t);
      return Arr(data), read;
    }

    /** The colon and the value of an entry. */
    method ParseValue(depth: nat, ghost e: Entry) returns (val: Json, ghost q: nat, ghost tree: Tree)
      requires i <= |str| && !failed && depth <= MAX_DEPTH
      modifies this`i, this`failed
      ensures i <= |str| && (!failed ==> ColonRead(str, old(i), q, i, tree, depth, val))
      ensures ColonAt(str, old(i), e, depth) ==> !failed && q == old(i) + |e.colon| && tree == e.tree
      decreases MAX_DEPTH + 1 - depth, 0
    {
      hide ColonAt, TreeAt, Skip, IsRead;
      if ColonAt(str, i, e, depth) { ColonHere(str, i, e, depth); }
      val, q, tree := Null, 0, e.tree;
      var ch := NextToken();
      if ch != COLON {
        failed := true;
      } else {
        q := Skip(str, i);
        val, tree := ParseJson(depth + 1, e.tree);
      }
    }

    /** An entry of an object, after the quote of its key. */
    method ParseMember(depth: nat, ghost e: Entry) returns (key: Text, val: Json, ghost read: Entry)
      requires 0 < i <= |str| && !failed && depth <= MAX_DEPTH && str[i - 1] == QUOTE
      modifies this`i, this`failed
      ensures i <= |str| && (!failed ==> MemberRead(str, old(i) - 1, i, read, depth, key, val))
      ensures MemberAt(str, old(i) - 1, e, depth) ==> !failed && read == e.(before := [])
      decreases MAX_DEPTH + 1 - depth, 1
    {
      hide MemberRead, MemberAt, ColonAt, ColonRead, SpellAll, StringAt, StringRead;
      ghost var good := MemberAt(str, i - 1, e, depth);
      if good { KeyAt(str, i, e, depth); }
      val, read := Null, e;
      ghost var ps;
      key, ps := ParseString(if good then e.key else []);
      if !failed {
        KeyEnd(str, old(i), i, ps, key);
        ghost var c, q, tree := i, i, e.tree;
        val, q, tree := ParseValue(depth, e);
        if !failed {
          read := EntryRead(str, old(i), c, q, i, ps, tree, depth, key, val, e);
        }
      }
    }

    /** One entry read and assigned. */
    method AddMember(depth: nat, data0: seq<Member>, ghost start: nat, ghost p: nat, ghost entries0: seq<Entry>,
                     ghost t: Tree)
      returns (data: seq<Member>, ghost entries: seq<Entry>)
      requires 0 < i <= |str| && !failed && depth <= MAX_DEPTH && str[i - 1] == QUOTE
      requires EntriesState(str, start, p, i, true, entries0, data0, depth)
      modifies this`i, this`failed
      ensures i <= |str|
      ensures !failed ==>
        old(i) <= i && start <= i && |entries| == |entries0| + 1 && EntriesRead(str, start, i, entries, data, depth)
      ensures EntriesGo(str, start, t, depth, p, old(i), true, entries0) ==>
        !failed && EntriesDone(str, start, t, depth, i, entries)
      decreases MAX_DEPTH + 1 - depth, 2
    {
      hide EntriesRead, EntriesGo, EntriesDone, EntriesState, MemberRead, MemberAt, Assign;
      ghost var good := EntriesGo(str, start, t, depth, p, i, true, entries0);
      if good { EntryGoes(str, start, t, depth, p, i, entries0); }
      data, entries := data0, entries0;
      ghost var e := if good then t.entries[|entries0|] else Entry([], [], [], t);
      var key, val;
      key, val, e := ParseMember(depth, e);
      if failed {
        return;
      }
      MoreEntries(str, start, p, old(i), entries, data, e, key, val, depth, i);
      if good { EntryDone(str, start, t, depth, p, old(i) - 1, i, entries, e, key, val); }
      entries, data := entries + [e.(before := str[p..old(i) - 1])], Assign(data, key, val);
    }

    /** The entries of an object, from the first character of the first one. */
    method ParseMembers(depth: nat, ch0: byte, ghost start: nat, ghost t: Tree)
      returns (data: seq<Member>, ghost entries: seq<Entry>, ghost p: nat)
      requires 0 < i <= |str| && depth <= MAX_DEPTH && start <= |str|
      requires if failed then ch0 == 0 else ch0 == str[i - 1] && EntriesState(str, start, start, i, true, [], [], depth)
      modifies this`i, this`failed
      ensures i <= |str| && (old(failed) ==> failed)
      ensures !failed ==> EntriesState(str, start, p, i, false, entries, data, depth)
      ensures !old(failed) && EntriesGo(str, start, t, depth, start, old(i), true, []) ==>
        !failed && EntriesGo(str, start, t, depth, p, i, false, entries)
      decreases MAX_DEPTH + 1 - depth, 3
    {
      hide EntriesRead, Between, EntriesDone, EntriesGo, Done, Goes;
      ghost var good := !failed && EntriesGo(str, start, t, depth, start, i, true, []);
      data, entries, p := [], [], start;
      var more, ch := true, ch0;
      while more
        invariant 0 < i <= |str| && (old(failed) ==> failed)
        invariant failed ==> more && ch == 0
        invariant !failed ==> EntriesState(str, start, p, i, more, entries, data, depth) && (more ==> ch == str[i - 1])
        invariant good ==> !failed && EntriesGo(str, start, t, depth, p, i, more, entries)
        decreases more, |str| - i
      {
        if good { EntryQuote(str, start, t, depth, p, i, entries); }
        if ch != QUOTE {
          failed := true;
          return;
        }
        data, entries := AddMember(depth, data, start, p, entries, t);
        if failed {
          return;
        }
        p := i;
        ghost var l := if good then EntriesNext(str, start, t, depth, p, entries) else List([], [], [], 0);
        more, ch := NextPart(CLOSE_OBJECT, start, |entries|, l);
        if good { EntriesOn(str, start, t, depth, p, i, more, entries); }
        if failed && !more {
          return;
        }
      }
    }

    /** An object, after the opening brace. */
    method ParseObject(depth: nat, ghost t: Tree) returns (r: Json, ghost read: Tree)
      requires 0 < i <= |str| && !failed && depth <= MAX_DEPTH && str[i - 1] == OPEN_OBJECT
      modifies this`i, this`failed
      ensures i <= |str| && (!failed ==> IsRead(str, old(i) - 1, i, read, depth, r))
      ensures TreeAt(str, old(i) - 1, t, depth) && t.Object? ==> !failed && read == t
      decreases MAX_DEPTH + 1 - depth, 4
    {
      hide IsRead, TreeAt, ItemsRead, EntriesRead, Skip, EntriesGo, Between;
      ghost var start := i;
      ghost var entries: seq<Entry>, p: nat := [], i;
      r, read := Null, t;
      FirstEntry(str, start, depth, t);
      NothingRead(str, start, depth);
      var ch := NextToken();
      if ch == CLOSE_OBJECT {
        read := ObjectRead(str, start, start, i, [], [], depth, t);
        return Obj([]), read;
      }
      var data;
      data, entries, p := ParseMembers(depth, ch, start, t);
      if failed {
        return;
      }
      read := ObjectRead(str, start, p, i, entries, data, depth, t);
      return Obj(data), read;
    }
  }

  // ---------- the entry points ----------

  /** A text of the grammar, not nested too deep, with white space around it. */
  ghost predicate IsJson(str: Text) { exists before, t, after :: IsText(str, before, t, after) }

  /** `t` is a text of the grammar and `str` spells it, with white space around it. */
  ghost predicate IsTextOf(str: Text, t: Tree) { exists before, after :: IsText(str, before, t, after) }

  lemma TextAt(str: Text, before: Text, t: Tree, after: Text)
    requires IsText(str, before, t, after)
    ensures Skip(str, 0) == |before| && TreeAt(str, |before|, t, 0)
    ensures |before| + |Spell(t)| <= |str| && Skip(str, |before| + |Spell(t)|) == |str|
  {
    hide Spell, WellFormed, Skip, AllSpace, StandsAt, IsSpace;
    var i, e := |before|, |before| + |Spell(t)|;
    ThreeParts(str, before, Spell(t), after);
    SpellStart(t, 0);
    FirstAt(str, i, Spell(t));
    SkipTo(str, 0, before);
    SkipTo(str, e, after);
    SpaceEnds(str, e, after);
  }

  lemma ThreeParts(str: Text, a: Text, b: Text, c: Text)
    requires str == a + (b + c)
    ensures StandsAt(str, 0, a) && StandsAt(str, |a|, b) && StandsAt(str, |a| + |b|, c) && |str| == |a| + |b| + |c|
  {
    hide StandsAt;
    WholeStands(str);
    StandsSplit(str, 0, a, b + c);
    StandsSplit(str, |a|, b, c);
  }

  lemma WholeStands(str: Text)
    ensures StandsAt(str, 0, str)
  {
    assert str[0..|str|] == str;
  }

  lemma SpaceEnds(str: Text, e: nat, after: Text)
    requires StandsAt(str, e, after) && AllSpace(after) && e + |after| == |str|
    ensures EndsAt(str, e)
  {
    FirstAt(str, e, after);
  }

  lemma TextRead(str: Text, i: nat, t: Tree, r: Json)
    requires IsRead(str, Skip(str, 0), i, t, 0, r) && Skip(str, i) == |str|
    ensures IsText(str, str[..Skip(str, 0)], t, str[i..])
  {
    hide Spell, WellFormed, Skip, ValueOf;
    var j := Skip(str, 0);
    SkipStops(str, 0);
    SkipStops(str, i);
    assert str[0..j] == str[..j] && str[i..|str|] == str[i..];
    Slices(str, 0, j, i, |str|);
    assert str[0..|str|] == str;
  }

  /**
   * `Json::parse` succeeds on exactly the texts of the grammar that are not nested too deep, and gives the
   * value that the text stands for.
   */
  method Parse(str: Text, ghost t: Tree) returns (ok: bool, r: Json)
    ensures ok <==> IsJson(str)
    ensures IsTextOf(str, t) ==> r == ValueOf(t)
    ensures ok ==> exists read :: IsTextOf(str, read) && r == ValueOf(read)
    ensures !ok ==> r == Null
  {
    hide IsText, IsRead, TreeAt, Skip, ValueOf;
    var parser := new Parser(str);
    ghost var before, tree, after := [], t, [];
    if IsTextOf(str, t) {
      before, after :| IsText(str, before, t, after);
    } else if IsJson(str) {
      before, tree, after :| IsText(str, before, tree, after);
    }
    if IsText(str, before, tree, after) { TextAt(str, before, tree, after); }
    ghost var read;
    r, read := parser.ParseJson(0, tree);
    if !parser.failed { ReadEnd(str, Skip(str, 0), parser.i, read, r); }
    ghost var end := parser.i;
    parser.ConsumeWhitespace();
    ok := !parser.failed && parser.i == |str|;
    if ok {
      TextRead(str, end, read, r);
      assert IsTextOf(str, read);
    } else {
      r := Null;
    }
  }

  lemma ReadEnd(str: Text, i: nat, j: nat, t: Tree, r: Json)
    requires IsRead(str, i, j, t, 0, r)
    ensures j == i + |Spell(t)| && r == ValueOf(t)
  {
  }

  /**
   * A value without doubles survives dumping and parsing, by the library's own equality, exactly when it is
   * not nested too deep and its keys are in order. It is the very same value, integers being integers
   * again, exactly when moreover no integer has ten characters or more.
   */
  method RoundTrip(v: Json) returns (ok: bool, r: Json)
    requires NoDoubles(v)
    ensures ok && Same(r, v) <==> Tame(v, 0)
    ensures ok && r == v <==> Plain(v, 0)
  {
    hide Dump, Tame, Fit, Read, Same, Short, Spell, WellFormed, ValueOf, TreeOf;
    var text := AppendJson(v, []);
    assert [] + Dump(v) == Dump(v);
    if Tame(v, 0) { DumpedText(v); }
    ok, r := Parse(text, TreeOf(v));
    ReadSame(v);
    ShortWhen(v);
    SameItself(v);
    if ok && Same(r, v) {
      ghost var read :| IsTextOf(text, read) && r == ValueOf(read);
      TextFits(text, read);
      SameTame(r, v, 0);
    }
  }

  lemma DumpedText(v: Json)
    requires Tame(v, 0)
    ensures IsJson(Dump(v)) && IsTextOf(Dump(v), TreeOf(v)) && ValueOf(TreeOf(v)) == Read(v)
  {
    hide Dump, Tame, Read, Spell, WellFormed, ValueOf, TreeOf;
    DumpIsText(v, 0);
    assert [] + (Dump(v) + []) == Dump(v);
    assert IsText(Dump(v), [], TreeOf(v), []);
  }

  lemma TextFits(str: Text, t: Tree)
    requires IsTextOf(str, t)
    ensures Fit(ValueOf(t), 0)
  {
    ValueFits(t, 0);
  }

  /** Arrays nested deeper than the limit are dumped and not read back; up to it they are. */
  method TooDeep(n: nat) returns (ok: bool, r: Json)
    ensures ok && Same(r, Nested(n)) <==> n <= 200
  {
    NestedTame(n, 0);
    ok, r := RoundTrip(Nested(n));
  }

  /** An integer of ten characters comes back as a double that equals it. */
  method TenDigits() returns (ok: bool, r: Json)
    ensures ok && r == Double(ToText(1234567890)) && Same(r, Int(1234567890))
  {
    TenLong();
    hide ValueOf, TreeOf, Spell, WellFormed, Digits;
    var text := AppendJson(Int(1234567890), []);
    assert [] + Dump(Int(1234567890)) == Dump(Int(1234567890));
    DumpedText(Int(1234567890));
    ok, r := Parse(text, TreeOf(Int(1234567890)));
  }
}
