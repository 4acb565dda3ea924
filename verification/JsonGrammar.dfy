/**
 * The texts of RFC 8259 as trees: what white space, separators, digits and escapes a text is made of, and
 * the value it stands for.
 */
module JsonGrammar {
  import opened Bytes
  import opened Decimal
  import opened Json
  import opened JsonText
  import opened TextOrder

  const POINT: byte := 46
  const PLUS: byte := 43

  /** Section 2 of RFC 8259: tab, line feed, carriage return and space. */
  predicate IsSpace(c: byte) { c in {9, 10, 13, 32} }

  predicate AllSpace(s: Text) { forall k :: 0 <= k < |s| ==> IsSpace(s[k]) }

  /** `c` with white space around it. */
  predicate Around(s: Text, c: byte) {
    exists j :: 0 <= j < |s| && s[j] == c && AllSpace(s[..j]) && AllSpace(s[j + 1..])
  }

  // ---------- numbers ----------

  /** The parts of a number's text: `frac` with its point, `exp` with its letter and sign, both possibly empty. */
  datatype Numeral = Numeral(minus: bool, whole: Text, frac: Text, exp: Text)

  predicate WholeOk(d: Text) { d != [] && AllDigits(d) && (d[0] == ZERO ==> |d| == 1) }

  predicate FracOk(f: Text) { f == [] || (|f| >= 2 && f[0] == POINT && AllDigits(f[1..])) }

  predicate IsE(c: byte) { c == 101 || c == 69 }

  predicate IsSign(c: byte) { c == PLUS || c == MINUS }

  predicate ExpOk(e: Text) {
    e == [] || (|e| >= 2 && IsE(e[0]) && if IsSign(e[1]) then |e| >= 3 && AllDigits(e[2..]) else AllDigits(e[1..]))
  }

  predicate NumeralOk(n: Numeral) { WholeOk(n.whole) && FracOk(n.frac) && ExpOk(n.exp) }

  function NumeralText(n: Numeral): (r: Text)
    ensures |r| >= |n.whole| + |n.frac| + |n.exp|
  {
    (if n.minus then [MINUS] else []) + (n.whole + (n.frac + n.exp))
  }

  /** An integer of at most nine characters, or a double. */
  function NumeralValue(n: Numeral): Json {
    if NumeralOk(n) && n.frac == [] && n.exp == [] && |NumeralText(n)| <= 9
    then Int(if n.minus then -(Value(n.whole) as int) else Value(n.whole))
    else Double(NumeralText(n))
  }

  // ---------- trees ----------

  datatype Tree =
    | Word(v: Json)
    | Number(n: Numeral)
    | Quoted(ps: seq<Piece>)
    | Array(items: seq<Item>, end: Text)
    | Object(entries: seq<Entry>, end: Text)

  /** An item and the white space, and from the second one on the comma, before it. */
  datatype Item = Item(before: Text, tree: Tree)

  /** An entry: what is before its key, and the colon between the key and the value. */
  datatype Entry = Entry(before: Text, key: seq<Piece>, colon: Text, tree: Tree)

  function WordText(v: Json): Text {
    match v
    case Null => NULL_TEXT
    case Bool(b) => if b then TRUE_TEXT else FALSE_TEXT
    case _ => []
  }

  function Concat(ts: seq<Text>): Text { if ts == [] then [] else Concat(ts[..|ts| - 1]) + ts[|ts| - 1] }

  function Spell(t: Tree): Text
    decreases t
  {
    match t
    case Word(v) => WordText(v)
    case Number(n) => NumeralText(n)
    case Quoted(ps) => [QUOTE] + (SpellAll(ps) + [QUOTE])
    case Array(items, end) =>
      [OPEN] + (Concat(seq(|items|, k requires 0 <= k < |items| => SpellItem(items[k]))) + (end + [CLOSE]))
    case Object(entries, end) =>
      [OPEN_OBJECT] +
        (Concat(seq(|entries|, k requires 0 <= k < |entries| => SpellEntry(entries[k]))) + (end + [CLOSE_OBJECT]))
  }

  function SpellItem(it: Item): Text
    decreases it
  {
    it.before + Spell(it.tree)
  }

  function SpellEntry(e: Entry): Text
    decreases e
  {
    e.before + ([QUOTE] + (SpellAll(e.key) + ([QUOTE] + (e.colon + Spell(e.tree)))))
  }

  predicate BeforeOk(k: nat, before: Text) { if k == 0 then AllSpace(before) else Around(before, COMMA) }

  /** A text of section 2 of RFC 8259, not nested too deep. */
  predicate WellFormed(t: Tree, depth: nat)
    decreases t
  {
    depth <= MAX_DEPTH &&
    match t
    case Word(v) => v.Null? || v.Bool?
    case Number(n) => NumeralOk(n)
    case Quoted(ps) => AllLegal(ps)
    case Array(items, end) =>
      && AllSpace(end)
      && forall k :: 0 <= k < |items| ==> BeforeOk(k, items[k].before) && WellFormed(items[k].tree, depth + 1)
    case Object(entries, end) =>
      && AllSpace(end)
      && forall k :: 0 <= k < |entries| ==>
        && BeforeOk(k, entries[k].before) && AllLegal(entries[k].key) && Around(entries[k].colon, COLON)
        && WellFormed(entries[k].tree, depth + 1)
  }

  /** `data[key] = val` for one entry after the other: the last one with a key counts. */
  function AssignAll(ms: seq<Member>): seq<Member> {
    if ms == [] then [] else Assign(AssignAll(ms[..|ms| - 1]), ms[|ms| - 1].key, ms[|ms| - 1].val)
  }

  function ValueOf(t: Tree): Json
    decreases t
  {
    match t
    case Word(v) => v
    case Number(n) => NumeralValue(n)
    case Quoted(ps) => Str(Meaning(ps))
    case Array(items, _) => Arr(seq(|items|, k requires 0 <= k < |items| => ValueOf(items[k].tree)))
    case Object(entries, _) =>
      Obj(AssignAll(seq(|entries|, k requires 0 <= k < |entries| => EntryValue(entries[k]))))
  }

  function EntryValue(e: Entry): Member
    decreases e
  {
    Member(Meaning(e.key), ValueOf(e.tree))
  }

  /** The whole of a text: white space, a tree, white space. */
  predicate IsText(str: Text, before: Text, t: Tree, after: Text) {
    AllSpace(before) && AllSpace(after) && WellFormed(t, 0) && str == before + (Spell(t) + after)
  }

  // ---------- the parts of a text ----------

  function ItemTexts(items: seq<Item>): seq<Text> { seq(|items|, k requires 0 <= k < |items| => SpellItem(items[k])) }

  function EntryTexts(entries: seq<Entry>): seq<Text> {
    seq(|entries|, k requires 0 <= k < |entries| => SpellEntry(entries[k]))
  }

  function ItemValues(items: seq<Item>): seq<Json> {
    seq(|items|, k requires 0 <= k < |items| => ValueOf(items[k].tree))
  }

  function EntryValues(entries: seq<Entry>): seq<Member> {
    seq(|entries|, k requires 0 <= k < |entries| => EntryValue(entries[k]))
  }

  predicate ItemsOk(items: seq<Item>, depth: nat) {
    forall k :: 0 <= k < |items| ==> BeforeOk(k, items[k].before) && WellFormed(items[k].tree, depth)
  }

  predicate EntryOk(k: nat, e: Entry, depth: nat) {
    BeforeOk(k, e.before) && AllLegal(e.key) && Around(e.colon, COLON) && WellFormed(e.tree, depth)
  }

  predicate EntriesOk(entries: seq<Entry>, depth: nat) {
    forall k :: 0 <= k < |entries| ==> EntryOk(k, entries[k], depth)
  }

  lemma ArrayIs(items: seq<Item>, end: Text, depth: nat)
    ensures Spell(Array(items, end)) == [OPEN] + (Concat(ItemTexts(items)) + (end + [CLOSE]))
    ensures ValueOf(Array(items, end)) == Arr(ItemValues(items))
    ensures WellFormed(Array(items, end), depth) <==> depth <= MAX_DEPTH && AllSpace(end) && ItemsOk(items, depth + 1)
  {
    var t := Array(items, end);
    assert ItemTexts(items) == seq(|items|, k requires 0 <= k < |items| => SpellItem(items[k]));
    assert ItemValues(items) == seq(|items|, k requires 0 <= k < |items| => ValueOf(items[k].tree));
  }

  lemma ObjectIs(entries: seq<Entry>, end: Text, depth: nat)
    ensures Spell(Object(entries, end)) == [OPEN_OBJECT] + (Concat(EntryTexts(entries)) + (end + [CLOSE_OBJECT]))
    ensures ValueOf(Object(entries, end)) == Obj(AssignAll(EntryValues(entries)))
    ensures WellFormed(Object(entries, end), depth) <==>
      depth <= MAX_DEPTH && AllSpace(end) && EntriesOk(entries, depth + 1)
  {
    assert EntryTexts(entries) == seq(|entries|, k requires 0 <= k < |entries| => SpellEntry(entries[k]));
    assert EntryValues(entries) == seq(|entries|, k requires 0 <= k < |entries| => EntryValue(entries[k]));
  }

  /** The first character of a text tells what it is. */
  lemma SpellStart(t: Tree, depth: nat)
    requires WellFormed(t, depth)
    ensures var s := Spell(t);
      && s != [] && !IsSpace(s[0]) && s[0] != CLOSE
      && (t.Word? ==> s[0] == WordText(t.v)[0]) && (t.Number? <==> s[0] == MINUS || IsDigit(s[0]))
      && (t.Quoted? <==> s[0] == QUOTE) && (t.Array? <==> s[0] == OPEN) && (t.Object? <==> s[0] == OPEN_OBJECT)
  {
  }

  // ---------- texts in a text ----------

  ghost predicate StandsAt(str: Text, i: nat, x: Text) { i + |x| <= |str| && str[i..i + |x|] == x }

  lemma StandsSplit(str: Text, i: nat, x: Text, y: Text)
    ensures StandsAt(str, i, x + y) <==> StandsAt(str, i, x) && StandsAt(str, i + |x|, y)
  {
    if i + |x + y| <= |str| {
      var s := str[i..i + |x + y|];
      assert s[..|x|] == str[i..i + |x|] && s[|x|..] == str[i + |x|..i + |x + y|];
      assert s == s[..|x|] + s[|x|..];
      if s == x + y { assert s[..|x|] == x && s[|x|..] == y; }
    }
  }

  /** What may follow a value. */
  ghost predicate EndsAt(str: Text, i: nat) {
    i < |str| ==> str[i] == COMMA || str[i] == CLOSE || str[i] == CLOSE_OBJECT || IsSpace(str[i])
  }

  lemma ConcatAppend(ts: seq<Text>, x: Text)
    ensures Concat(ts + [x]) == Concat(ts) + x
  {
    assert (ts + [x])[..|ts|] == ts;
  }

  /** Where the `k`th text begins and ends. */
  lemma {:induction false} PartAt(str: Text, start: nat, ts: seq<Text>, k: nat, tail: Text)
    requires k <= |ts| && StandsAt(str, start, Concat(ts) + tail)
    ensures var p := start + |Concat(ts[..k])|;
      && p <= |str|
      && (k == |ts| ==> StandsAt(str, p, tail))
      && (k < |ts| ==> StandsAt(str, p, ts[k]) && p + |ts[k]| == start + |Concat(ts[..k + 1])|)
    decreases |ts|
  {
    StandsSplit(str, start, Concat(ts), tail);
    if k == |ts| {
      assert ts[..k] == ts;
    } else {
      var n := |ts| - 1;
      var us, x := ts[..n], ts[n];
      StandsSplit(str, start, Concat(us), x);
      assert ts[..k + 1][..k] == ts[..k] && us[..k] == ts[..k];
      if k < n {
        assert us[..k + 1] == ts[..k + 1];
        PartAt(str, start, us, k, []);
        assert Concat(us) + [] == Concat(us);
      }
    }
  }

  // ---------- white space ----------

  function Skip(str: Text, i: nat): (j: nat)
    requires i <= |str|
    ensures i <= j <= |str|
    decreases |str| - i
  {
    if i < |str| && IsSpace(str[i]) then Skip(str, i + 1) else i
  }

  lemma {:induction false} SkipStops(str: Text, i: nat)
    requires i <= |str|
    ensures var j := Skip(str, i); AllSpace(str[i..j]) && (j < |str| ==> !IsSpace(str[j]))
    decreases |str| - i
  {
    if i < |str| && IsSpace(str[i]) {
      SkipStops(str, i + 1);
      assert str[i..Skip(str, i)] == [str[i]] + str[i + 1..Skip(str, i)];
    }
  }

  lemma {:induction false} SkipTo(str: Text, i: nat, gap: Text)
    requires StandsAt(str, i, gap) && AllSpace(gap) && (i + |gap| < |str| ==> !IsSpace(str[i + |gap|]))
    ensures Skip(str, i) == i + |gap|
    decreases |gap|
  {
    if gap != [] {
      assert str[i] == gap[0];
      assert str[i + 1..i + |gap|] == str[i..i + |gap|][1..] == gap[1..];
      SkipTo(str, i + 1, gap[1..]);
    }
  }

  /** Past a separator. */
  lemma AroundAt(str: Text, i: nat, s: Text, c: byte)
    requires StandsAt(str, i, s) && Around(s, c) && !IsSpace(c) && i + |s| < |str| && !IsSpace(str[i + |s|])
    ensures var j := Skip(str, i); j < |str| && str[j] == c && Skip(str, j + 1) == i + |s|
  {
    hide AllSpace, IsSpace, Skip;
    var j :| 0 <= j < |s| && s[j] == c && AllSpace(s[..j]) && AllSpace(s[j + 1..]);
    var a, b := s[..j], s[j + 1..];
    assert StandsAt(str, i, a) && StandsAt(str, i + j + 1, b) && str[i + j] == c by {
      assert str[i..i + j] == str[i..i + |s|][..j] && str[i + j + 1..i + |s|] == str[i..i + |s|][j + 1..];
    }
    SkipTo(str, i, a);
    SkipTo(str, i + j + 1, b);
  }

  lemma AroundFrom(str: Text, i: nat, c: byte)
    requires i <= |str| && Skip(str, i) < |str| && str[Skip(str, i)] == c
    ensures Around(str[i..Skip(str, Skip(str, i) + 1)], c)
  {
    hide Skip, AllSpace;
    var j := Skip(str, i);
    var q := Skip(str, j + 1);
    SkipStops(str, i);
    SkipStops(str, j + 1);
    var s := str[i..q];
    assert s[..j - i] == str[i..j];
    assert s[j - i + 1..] == str[j + 1..q];
    assert s[j - i] == c;
  }

  /** What comes before an item or after the last one may follow a value. */
  lemma AroundEnds(str: Text, i: nat, s: Text)
    requires StandsAt(str, i, s) && Around(s, COMMA)
    ensures EndsAt(str, i)
  {
    var j :| 0 <= j < |s| && s[j] == COMMA && AllSpace(s[..j]) && AllSpace(s[j + 1..]);
    assert str[i] == s[0];
    if j > 0 { assert s[..j][0] == s[0]; }
  }

  lemma ClosingEnds(str: Text, i: nat, end: Text, c: byte)
    requires StandsAt(str, i, end + [c]) && AllSpace(end) && (c == CLOSE || c == CLOSE_OBJECT)
    ensures EndsAt(str, i) && Skip(str, i) == i + |end| < |str| && str[i + |end|] == c
  {
    StandsSplit(str, i, end, [c]);
    assert str[i + |end|] == str[i + |end|..i + |end| + 1][0];
    SkipTo(str, i, end);
    if end != [] { assert str[i] == end[0]; }
  }

  // ---------- digits ----------

  function At(str: Text, k: nat): byte { if k < |str| then str[k] else 0 }

  function DigitsEnd(str: Text, i: nat): (j: nat)
    requires i <= |str|
    ensures i <= j <= |str|
    decreases |str| - i
  {
    if IsDigit(At(str, i)) then DigitsEnd(str, i + 1) else i
  }

  lemma {:induction false} DigitsStop(str: Text, i: nat)
    requires i <= |str|
    ensures var j := DigitsEnd(str, i); AllDigits(str[i..j]) && !IsDigit(At(str, j))
    decreases |str| - i
  {
    if IsDigit(At(str, i)) {
      DigitsStop(str, i + 1);
      assert str[i..DigitsEnd(str, i)] == [str[i]] + str[i + 1..DigitsEnd(str, i)];
    }
  }

  lemma {:induction false} DigitsTo(str: Text, i: nat, d: Text)
    requires StandsAt(str, i, d) && AllDigits(d) && !IsDigit(At(str, i + |d|))
    ensures DigitsEnd(str, i) == i + |d|
    decreases |d|
  {
    if d != [] {
      assert str[i] == d[0];
      assert str[i + 1..i + |d|] == str[i..i + |d|][1..] == d[1..];
      DigitsTo(str, i + 1, d[1..]);
    }
  }

  // ---------- dumped values ----------

  /** The text that a value is dumped as. */
  function TreeOf(v: Json): Tree
    decreases v
  {
    match v
    case Int(i) => Number(Numeral(i < 0, Digits(if i < 0 then -i else i), [], []))
    case Str(s) => Quoted(Pieces(s))
    case Arr(items) =>
      Array(seq(|items|, k requires 0 <= k < |items| =>
              Item(if k == 0 then [] else [COMMA, SPACE], TreeOf(items[k]))), [])
    case Obj(members) => Object(seq(|members|, k requires 0 <= k < |members| => EntryOf(k, members[k])), [])
    case _ => Word(v)
  }

  function EntryOf(k: nat, m: Member): Entry
    decreases m
  {
    Entry(if k == 0 then [] else [COMMA, SPACE], Pieces(m.key), [COLON, SPACE], TreeOf(m.val))
  }

  lemma Commas()
    ensures Around([COMMA, SPACE], COMMA) && Around([COLON, SPACE], COLON)
  {
    var c: Text, d: Text := [COMMA, SPACE], [COLON, SPACE];
    assert c[0] == COMMA && c[..0] == [] && c[1..] == [SPACE];
    assert d[0] == COLON && d[..0] == [] && d[1..] == [SPACE];
  }

  /** A dumped value is a text of the grammar, and what it stands for is what is read back. */
  lemma {:induction false} DumpIsText(v: Json, depth: nat)
    requires Tame(v, depth)
    ensures Spell(TreeOf(v)) == Dump(v) && WellFormed(TreeOf(v), depth) && ValueOf(TreeOf(v)) == Read(v)
    decreases v
  {
    match v
    case Int(i) => IntIsText(i);
    case Str(s) => PiecesRead(s);
    case Arr(items) =>
      forall k | 0 <= k < |items|
        ensures Spell(TreeOf(items[k])) == Dump(items[k]) && WellFormed(TreeOf(items[k]), depth + 1)
        ensures ValueOf(TreeOf(items[k])) == Read(items[k])
      {
        DumpIsText(items[k], depth + 1);
      }
      ArrIsText(v, depth);
    case Obj(members) =>
      forall k | 0 <= k < |members|
        ensures Spell(TreeOf(members[k].val)) == Dump(members[k].val) && WellFormed(TreeOf(members[k].val), depth + 1)
        ensures ValueOf(TreeOf(members[k].val)) == Read(members[k].val)
      {
        DumpIsText(members[k].val, depth + 1);
      }
      ObjIsText(v, depth);
    case _ =>
  }

  lemma IntIsText(i: int)
    ensures Spell(TreeOf(Int(i))) == ToText(i) && NumeralOk(TreeOf(Int(i)).n) && ValueOf(TreeOf(Int(i))) == ReadInt(i)
  {
    hide Digits, Value;
    var d := Digits(if i < 0 then -i else i);
    ValueDigits(if i < 0 then -i else i);
    OneZero(if i < 0 then -i else i);
    assert d + ([] + []) == d;
  }

  lemma OneZero(n: nat)
    ensures WholeOk(Digits(n))
  {
  }

  lemma ArrIsText(v: Json, depth: nat)
    requires v.Arr? && depth <= MAX_DEPTH
    requires forall k :: 0 <= k < |v.items| ==> Spell(TreeOf(v.items[k])) == Dump(v.items[k])
    requires forall k :: 0 <= k < |v.items| ==> WellFormed(TreeOf(v.items[k]), depth + 1)
    requires forall k :: 0 <= k < |v.items| ==> ValueOf(TreeOf(v.items[k])) == Read(v.items[k])
    ensures Spell(TreeOf(v)) == Dump(v) && WellFormed(TreeOf(v), depth) && ValueOf(TreeOf(v)) == Read(v)
  {
    hide Spell, WellFormed, ValueOf, DumpItems;
    var items := TreeOf(v).items;
    ArrayIs(items, [], depth);
    Commas();
    ItemsDumped(v, |items|);
    DumpedEnds(v);
    assert ItemTexts(items)[..|items|] == ItemTexts(items) && [] + [CLOSE] == [CLOSE];
    ReadItems(v);
    assert ItemValues(items) == Read(v).items;
  }

  lemma DumpedEnds(v: Json)
    ensures v.Arr? ==> DumpItems(v, |v.items|) == [CLOSE]
    ensures v.Obj? ==> DumpMembers(v, |v.members|) == [CLOSE_OBJECT]
  {
  }

  lemma {:induction false} ItemsDumped(v: Json, k: nat)
    requires v.Arr? && k <= |v.items|
    requires forall k :: 0 <= k < |v.items| ==> Spell(TreeOf(v.items[k])) == Dump(v.items[k])
    ensures DumpItems(v, 0) == Concat(ItemTexts(TreeOf(v).items)[..k]) + DumpItems(v, k)
  {
    hide Spell, Dump, DumpItems, Concat;
    var ts := ItemTexts(TreeOf(v).items);
    ConcatStep(ts, k);
    if k > 0 {
      ItemsDumped(v, k - 1);
      ItemDumped(v, k - 1);
      Associates(Concat(ts[..k - 1]), ts[k - 1], DumpItems(v, k));
    }
  }

  lemma ConcatStep(ts: seq<Text>, k: nat)
    requires k <= |ts|
    ensures Concat(ts[..k]) == if k == 0 then [] else Concat(ts[..k - 1]) + ts[k - 1]
  {
    if k > 0 { assert ts[..k][..k - 1] == ts[..k - 1]; }
  }

  lemma Associates(a: Text, b: Text, c: Text)
    ensures a + (b + c) == a + b + c
  {
  }

  lemma ItemDumped(v: Json, k: nat)
    requires v.Arr? && k < |v.items| && Spell(TreeOf(v.items[k])) == Dump(v.items[k])
    ensures DumpItems(v, k) == SpellItem(TreeOf(v).items[k]) + DumpItems(v, k + 1)
  {
    hide Spell, Dump;
    var sep: Text := if k == 0 then [] else [COMMA, SPACE];
    Associates(sep, Dump(v.items[k]), DumpItems(v, k + 1));
  }

  lemma ObjIsText(v: Json, depth: nat)
    requires v.Obj? && depth <= MAX_DEPTH && KeysOrdered(v.members)
    requires forall k :: 0 <= k < |v.members| ==> Spell(TreeOf(v.members[k].val)) == Dump(v.members[k].val)
    requires forall k :: 0 <= k < |v.members| ==> WellFormed(TreeOf(v.members[k].val), depth + 1)
    requires forall k :: 0 <= k < |v.members| ==> ValueOf(TreeOf(v.members[k].val)) == Read(v.members[k].val)
    ensures Spell(TreeOf(v)) == Dump(v) && WellFormed(TreeOf(v), depth) && ValueOf(TreeOf(v)) == Read(v)
  {
    hide Spell, WellFormed, ValueOf, DumpMembers, Pieces, Meaning, AllLegal, Around, AssignAll, Less, SpellAll;
    var entries := TreeOf(v).entries;
    ObjectIs(entries, [], depth);
    forall k | 0 <= k < |entries|
      ensures EntryOk(k, entries[k], depth + 1) && EntryValue(entries[k]) == ReadMember(v.members[k])
    {
      EntryReads(v.members[k], k, depth + 1);
    }
    MembersDumped(v, |entries|);
    DumpedEnds(v);
    assert EntryTexts(entries)[..|entries|] == EntryTexts(entries) && [] + [CLOSE_OBJECT] == [CLOSE_OBJECT];
    ReadMembers(v);
    assert EntryValues(entries) == Read(v).members;
    AssignOrdered(Read(v).members);
  }

  lemma EntryReads(m: Member, k: nat, depth: nat)
    requires WellFormed(TreeOf(m.val), depth) && ValueOf(TreeOf(m.val)) == Read(m.val)
    ensures EntryOk(k, EntryOf(k, m), depth) && EntryValue(EntryOf(k, m)) == ReadMember(m)
  {
    hide WellFormed, ValueOf, TreeOf, Pieces, Meaning, AllLegal, Around;
    Commas();
    PiecesRead(m.key);
  }

  lemma {:induction false} MembersDumped(v: Json, k: nat)
    requires v.Obj? && k <= |v.members|
    requires forall k :: 0 <= k < |v.members| ==> Spell(TreeOf(v.members[k].val)) == Dump(v.members[k].val)
    ensures DumpMembers(v, 0) == Concat(EntryTexts(TreeOf(v).entries)[..k]) + DumpMembers(v, k)
  {
    hide Spell, Dump, DumpMembers, Concat, SpellAll, Pieces;
    var ts := EntryTexts(TreeOf(v).entries);
    ConcatStep(ts, k);
    if k > 0 {
      MembersDumped(v, k - 1);
      EntryDumped(v, k - 1);
      Associates(Concat(ts[..k - 1]), ts[k - 1], DumpMembers(v, k));
    }
  }

  lemma EntryDumped(v: Json, k: nat)
    requires v.Obj? && k < |v.members| && Spell(TreeOf(v.members[k].val)) == Dump(v.members[k].val)
    ensures DumpMembers(v, k) == SpellEntry(TreeOf(v).entries[k]) + DumpMembers(v, k + 1)
  {
    hide Spell, Dump, Pieces, SpellAll, Escape;
    var m := v.members[k];
    PiecesRead(m.key);
    var sep: Text := if k == 0 then [] else [COMMA, SPACE];
    EntryJoins(sep, [QUOTE], Escape(m.key), [COLON, SPACE], Dump(m.val), DumpMembers(v, k + 1));
  }

  lemma EntryJoins(sep: Text, q: Text, key: Text, colon: Text, val: Text, rest: Text)
    ensures sep + (q + (key + q) + (colon + (val + rest))) == sep + (q + (key + (q + (colon + val)))) + rest
  {
    Associates(colon, val, rest);
    Associates(key, q, colon + val + rest);
    Associates(q, colon + val, rest);
    Associates(key, q + (colon + val), rest);
    Associates(q, key + q, colon + val + rest);
    Associates(q, key + (q + (colon + val)), rest);
    Associates(sep, q + (key + (q + (colon + val))), rest);
  }

  lemma {:induction false} AssignOrdered(ms: seq<Member>)
    requires KeysOrdered(ms)
    ensures AssignAll(ms) == ms
  {
    hide Less;
    if ms != [] {
      var n := |ms| - 1;
      AssignOrdered(ms[..n]);
      AssignLast(ms[..n], ms[n].key, ms[n].val);
      assert ms == ms[..n] + [ms[n]];
    }
  }

  // ---------- what a text can stand for ----------

  /** Of the entries with one key the last one counts, and the keys are in order. */
  lemma {:induction false} LastCounts(ms: seq<Member>, m: Member)
    ensures KeysOrdered(AssignAll(ms))
    ensures m in AssignAll(ms) <==>
      exists j :: 0 <= j < |ms| && ms[j] == m && forall l :: j < l < |ms| ==> ms[l].key != m.key
  {
    hide Less;
    if ms != [] {
      var n := |ms| - 1;
      var init := ms[..n];
      LastCounts(init, m);
      AssignHolds(AssignAll(init), ms[n].key, ms[n].val, m);
      if m in AssignAll(ms) && ms[n] != m {
        var j :| 0 <= j < |init| && init[j] == m && forall l :: j < l < |init| ==> init[l].key != m.key;
        assert ms[j] == m && forall l :: j < l < |ms| ==> ms[l].key != m.key;
      }
      if ms[n] == m { assert ms[n] == m; }
      if j :| 0 <= j < |ms| && ms[j] == m && forall l :: j < l < |ms| ==> ms[l].key != m.key {
        if j < n { assert init[j] == m && forall l :: j < l < |init| ==> init[l].key != m.key; }
      }
    }
  }

  lemma {:induction false} AssignHolds(data: seq<Member>, key: Text, val: Json, m: Member)
    requires KeysOrdered(data)
    ensures KeysOrdered(Assign(data, key, val))
    ensures m in Assign(data, key, val) <==> if m.key == key then m.val == val else m in data
  {
    hide Less;
    if data == [] {
    } else if Less(data[0].key, key) {
      AssignHolds(data[1..], key, val, m);
      LessTotal(key, key);
      var rest := Assign(data[1..], key, val);
      forall k | 0 <= k < |rest| ensures Less(data[0].key, rest[k].key) { AssignKeys(data[1..], key, val, k); }
      assert data == [data[0]] + data[1..];
    } else {
      LessTotal(data[0].key, key);
      forall k | 0 < k < |data| ensures data[k].key != key && (data[0].key != key ==> Less(key, data[k].key)) {
        if data[0].key != key { LessTransitive(key, data[0].key, data[k].key); }
        LessTotal(key, key);
      }
      assert data == [data[0]] + data[1..];
    }
  }

  lemma {:induction false} AssignAllFits(ms: seq<Member>, depth: nat)
    requires forall k :: 0 <= k < |ms| ==> Fit(ms[k].val, depth)
    ensures MembersFit(AssignAll(ms), depth)
  {
    hide Fit, Less, Assign;
    if ms != [] {
      var n := |ms| - 1;
      AssignAllFits(ms[..n], depth);
      AssignFits(AssignAll(ms[..n]), ms[n].key, ms[n].val, depth);
    }
  }

  /** Whatever a text stands for is within the depth limit and has its keys in order. */
  lemma {:induction false} ValueFits(t: Tree, depth: nat)
    requires WellFormed(t, depth)
    ensures Fit(ValueOf(t), depth)
    decreases t
  {
    match t
    case Number(n) => NumeralFits(n);
    case Array(items, end) =>
      forall k | 0 <= k < |items| ensures Fit(ValueOf(items[k].tree), depth + 1) {
        ValueFits(items[k].tree, depth + 1);
      }
      ArrayIs(items, end, depth);
      ArrFits(ItemValues(items), depth);
    case Object(entries, end) =>
      forall k | 0 <= k < |entries| ensures Fit(EntryValue(entries[k]).val, depth + 1) {
        ValueFits(entries[k].tree, depth + 1);
      }
      ObjectIs(entries, end, depth);
      AssignAllFits(EntryValues(entries), depth + 1);
      ObjFits(AssignAll(EntryValues(entries)), depth);
    case _ =>
  }

  lemma NumeralFits(n: Numeral)
    requires NumeralOk(n)
    ensures NumeralValue(n).Int? ==> |ToText(NumeralValue(n).i)| <= 9
  {
    hide Digits, Value;
    DigitsShort(n.whole);
  }
}
