/**
 * JSON values as json11 dumps and parses them (sections 4 and 5 of RFC 8259). Doubles are carried as
 * their literal text.
 */
module Json {
  import opened Bytes
  import opened Decimal
  import opened JsonText
  import opened TextOrder

  datatype Json =
    | Null
    | Bool(b: bool)
    | Int(i: int)
    | Double(literal: Text)
    | Str(s: Text)
    | Arr(items: seq<Json>)
    | Obj(members: seq<Member>)

  /** An entry of an object; entries are in the order of `std::map`. */
  datatype Member = Member(key: Text, val: Json)

  const MAX_DEPTH := 200

  const NULL_TEXT: Text := [110, 117, 108, 108]
  const TRUE_TEXT: Text := [116, 114, 117, 101]
  const FALSE_TEXT: Text := [102, 97, 108, 115, 101]
  const COMMA: byte := 44
  const COLON: byte := 58
  const SPACE: byte := 32
  const OPEN: byte := 91
  const CLOSE: byte := 93
  const OPEN_OBJECT: byte := 123
  const CLOSE_OBJECT: byte := 125

  // ---------- writing ----------

  function Dump(v: Json): (r: Text)
    ensures |r| > 0 || v.Double?
    decreases v, 1, 0
  {
    match v
    case Null => NULL_TEXT
    case Bool(b) => if b then TRUE_TEXT else FALSE_TEXT
    case Int(i) => ToText(i)
    case Double(literal) => literal
    case Str(s) => DumpText(s)
    case Arr(items) => [OPEN] + DumpItems(v, 0)
    case Obj(members) => [OPEN_OBJECT] + DumpMembers(v, 0)
  }

  /** An array from its `k`th item on, with the closing bracket. */
  function DumpItems(v: Json, k: nat): (r: Text)
    requires v.Arr? && k <= |v.items|
    ensures |r| > 0
    decreases v, 0, |v.items| - k
  {
    if k == |v.items| then [CLOSE]
    else (if k == 0 then [] else [COMMA, SPACE]) + (Dump(v.items[k]) + DumpItems(v, k + 1))
  }

  /** An object from its `k`th entry on, with the closing brace. */
  function DumpMembers(v: Json, k: nat): (r: Text)
    requires v.Obj? && k <= |v.members|
    ensures |r| > 0
    decreases v, 0, |v.members| - k
  {
    if k == |v.members| then [CLOSE_OBJECT]
    else
      var m := v.members[k];
      (if k == 0 then [] else [COMMA, SPACE]) +
        (DumpText(m.key) + ([COLON, SPACE] + (Dump(m.val) + DumpMembers(v, k + 1))))
  }

  function Ascii(s: string): Text
    requires forall k :: 0 <= k < |s| ==> s[k] < 128 as char
  {
    seq(|s|, k requires 0 <= k < |s| => s[k] as int)
  }

  lemma WordsAre()
    ensures Dump(Null) == Ascii("null") && Dump(Bool(true)) == Ascii("true") && Dump(Bool(false)) == Ascii("false")
  {
  }

  /** The brackets and what is between two items. */
  lemma DumpTwo(a: Json, b: Json)
    ensures Dump(Arr([])) == Ascii("[]")
    ensures Dump(Arr([a, b])) == Ascii("[") + (Dump(a) + (Ascii(", ") + (Dump(b) + Ascii("]"))))
  {
    hide Dump;
    Shape(Arr([]));
    Shape(Arr([a, b]));
    assert DumpItems(Arr([a, b]), 2) == [CLOSE];
    assert DumpItems(Arr([a, b]), 1) == [COMMA, SPACE] + (Dump(b) + [CLOSE]);
  }

  /** The braces and what is between two entries. */
  lemma DumpTwoEntries(k: Text, a: Json, l: Text, b: Json)
    ensures Dump(Obj([])) == Ascii("{}")
    ensures Dump(Obj([Member(k, a), Member(l, b)])) ==
      Ascii("{") + (DumpText(k) + (Ascii(": ") + (Dump(a) +
      (Ascii(", ") + (DumpText(l) + (Ascii(": ") + (Dump(b) + Ascii("}"))))))))
  {
    hide Dump, DumpText;
    var v := Obj([Member(k, a), Member(l, b)]);
    Shape(Obj([]));
    Shape(v);
    assert Ascii("{") == [OPEN_OBJECT] && Ascii(": ") == [COLON, SPACE] && Ascii(", ") == [COMMA, SPACE];
    assert DumpMembers(v, 2) == [CLOSE_OBJECT] == Ascii("}");
    assert DumpMembers(v, 1) == [COMMA, SPACE] + (DumpText(l) + ([COLON, SPACE] + (Dump(b) + [CLOSE_OBJECT])));
    assert DumpMembers(v, 0) == [] + (DumpText(k) + ([COLON, SPACE] + (Dump(a) + DumpMembers(v, 1))));
  }

  lemma Shape(v: Json)
    ensures v.Arr? ==> Dump(v) == [OPEN] + DumpItems(v, 0)
    ensures v.Obj? ==> Dump(v) == [OPEN_OBJECT] + DumpMembers(v, 0)
  {
  }

  // ---------- the values that come back ----------

  /** No doubles, keys in strict order, and not nested too deep. */
  ghost predicate Tame(v: Json, depth: nat)
    decreases v
  {
    depth <= MAX_DEPTH &&
    match v
    case Double(_) => false
    case Arr(items) => forall k :: 0 <= k < |items| ==> Tame(items[k], depth + 1)
    case Obj(members) => (forall k :: 0 <= k < |members| ==> Tame(members[k].val, depth + 1)) && KeysOrdered(members)
    case _ => true
  }

  ghost predicate KeysOrdered(members: seq<Member>) {
    forall j, k :: 0 <= j < k < |members| ==> Less(members[j].key, members[k].key)
  }

  /** The same value after dumping and parsing: an integer of ten characters or more comes back as a double. */
  function Read(v: Json): Json
    decreases v
  {
    match v
    case Int(i) => ReadInt(i)
    case Arr(items) => Arr(seq(|items|, k requires 0 <= k < |items| => Read(items[k])))
    case Obj(members) => Obj(seq(|members|, k requires 0 <= k < |members| => ReadMember(members[k])))
    case _ => v
  }

  function ReadMember(m: Member): Member
    decreases m
  {
    Member(m.key, Read(m.val))
  }

  lemma ReadItems(v: Json)
    requires v.Arr?
    ensures Read(v).Arr? && |Read(v).items| == |v.items|
    ensures forall k :: 0 <= k < |v.items| ==> Read(v).items[k] == Read(v.items[k])
  {
  }

  lemma ReadMembers(v: Json)
    requires v.Obj?
    ensures Read(v).Obj? && |Read(v).members| == |v.members|
    ensures forall k :: 0 <= k < |v.members| ==> Read(v).members[k] == ReadMember(v.members[k])
  {
  }

  function ReadInt(i: int): Json { if |ToText(i)| <= 9 then Int(i) else Double(ToText(i)) }

  /**
   * `Json::operator==` for a value `v` without doubles: numbers are compared as numbers, so an integer
   * equals the double that its text is read as; everything else is compared part by part.
   */
  predicate Same(r: Json, v: Json)
    decreases v
  {
    match v
    case Int(i) => r == Int(i) || r == Double(ToText(i))
    case Arr(items) => r.Arr? && |r.items| == |items| && forall k :: 0 <= k < |items| ==> Same(r.items[k], items[k])
    case Obj(members) =>
      && r.Obj? && |r.members| == |members|
      && forall k :: 0 <= k < |members| ==> r.members[k].key == members[k].key && Same(r.members[k].val, members[k].val)
    case _ => r == v
  }

  lemma {:induction false} ReadSame(v: Json)
    ensures Same(Read(v), v)
    decreases v
  {
    match v
    case Arr(items) => forall k | 0 <= k < |items| ensures Same(Read(items[k]), items[k]) { ReadSame(items[k]); }
    case Obj(members) =>
      forall k | 0 <= k < |members| ensures Same(Read(members[k].val), members[k].val) { ReadSame(members[k].val); }
    case _ =>
  }

  /** The values that come back as the same class of number: integers of at most nine characters. */
  ghost predicate Plain(v: Json, depth: nat) { Tame(v, depth) && Short(v) }

  predicate Short(v: Json)
    decreases v
  {
    match v
    case Int(i) => |ToText(i)| <= 9
    case Arr(items) => forall k :: 0 <= k < |items| ==> Short(items[k])
    case Obj(members) => forall k :: 0 <= k < |members| ==> Short(members[k].val)
    case _ => true
  }

  lemma {:induction false} ShortWhen(v: Json)
    ensures Read(v) == v <==> Short(v)
    decreases v
  {
    match v
    case Arr(items) =>
      forall k | 0 <= k < |items| ensures Read(items[k]) == items[k] <==> Short(items[k]) { ShortWhen(items[k]); }
      if Read(v) == v {
        forall k | 0 <= k < |items| ensures Short(items[k]) { assert Read(v).items[k] == Read(items[k]); }
      } else {
        assert Read(v).items != items;
      }
    case Obj(members) =>
      forall k | 0 <= k < |members| ensures Read(members[k].val) == members[k].val <==> Short(members[k].val) {
        ShortWhen(members[k].val);
      }
      if Read(v) == v {
        forall k | 0 <= k < |members| ensures Short(members[k].val) {
          assert Read(v).members[k] == ReadMember(members[k]);
        }
      } else {
        assert Read(v).members != members;
      }
    case _ =>
  }

  /** What a parse can give: not nested too deep, keys in strict order, integers of at most nine characters. */
  ghost predicate Fit(v: Json, depth: nat)
    decreases v
  {
    depth <= MAX_DEPTH &&
    match v
    case Int(i) => |ToText(i)| <= 9
    case Arr(items) => forall k :: 0 <= k < |items| ==> Fit(items[k], depth + 1)
    case Obj(members) => (forall k :: 0 <= k < |members| ==> Fit(members[k].val, depth + 1)) && KeysOrdered(members)
    case _ => true
  }

  predicate NoDoubles(v: Json)
    decreases v
  {
    match v
    case Double(_) => false
    case Arr(items) => forall k :: 0 <= k < |items| ==> NoDoubles(items[k])
    case Obj(members) => forall k :: 0 <= k < |members| ==> NoDoubles(members[k].val)
    case _ => true
  }

  /** Only a tame value can equal what a parse gives. */
  lemma {:induction false} SameTame(r: Json, v: Json, depth: nat)
    requires Fit(r, depth) && Same(r, v) && NoDoubles(v)
    ensures Tame(v, depth)
    decreases v
  {
    match v
    case Arr(items) =>
      forall k | 0 <= k < |items| ensures Tame(items[k], depth + 1) { SameTame(r.items[k], items[k], depth + 1); }
    case Obj(members) =>
      forall k | 0 <= k < |members| ensures Tame(members[k].val, depth + 1) {
        SameTame(r.members[k].val, members[k].val, depth + 1);
      }
      SameKeys(r.members, members);
    case _ =>
  }

  lemma SameKeys(a: seq<Member>, b: seq<Member>)
    requires |a| == |b| && KeysOrdered(a) && forall k :: 0 <= k < |b| ==> a[k].key == b[k].key
    ensures KeysOrdered(b)
  {
    forall j, k | 0 <= j < k < |b| ensures Less(b[j].key, b[k].key) { assert Less(a[j].key, a[k].key); }
  }

  ghost predicate ItemsFit(items: seq<Json>, depth: nat) { forall k :: 0 <= k < |items| ==> Fit(items[k], depth) }

  ghost predicate MembersFit(members: seq<Member>, depth: nat) {
    (forall k :: 0 <= k < |members| ==> Fit(members[k].val, depth)) && KeysOrdered(members)
  }

  lemma ArrFits(items: seq<Json>, depth: nat)
    requires depth <= MAX_DEPTH && ItemsFit(items, depth + 1)
    ensures Fit(Arr(items), depth)
  {
  }

  lemma ObjFits(members: seq<Member>, depth: nat)
    requires depth <= MAX_DEPTH && MembersFit(members, depth + 1)
    ensures Fit(Obj(members), depth)
  {
  }

  /** `data[key] = val`, in key order. */
  function Assign(data: seq<Member>, key: Text, val: Json): seq<Member> {
    if data == [] then [Member(key, val)]
    else if Less(data[0].key, key) then [data[0]] + Assign(data[1..], key, val)
    else if data[0].key == key then [Member(key, val)] + data[1..]
    else [Member(key, val)] + data
  }

  lemma {:induction false} AssignLast(data: seq<Member>, key: Text, val: Json)
    requires forall k :: 0 <= k < |data| ==> Less(data[k].key, key)
    ensures Assign(data, key, val) == data + [Member(key, val)]
  {
    if data != [] {
      AssignLast(data[1..], key, val);
      assert data == [data[0]] + data[1..];
    }
  }

  lemma {:induction false} AssignKeys(data: seq<Member>, key: Text, val: Json, k: nat)
    requires k < |Assign(data, key, val)|
    ensures Assign(data, key, val)[k] == Member(key, val) || Assign(data, key, val)[k] in data
  {
    if data != [] && Less(data[0].key, key) && k > 0 {
      AssignKeys(data[1..], key, val, k - 1);
    }
  }

  lemma {:induction false} AssignFits(data: seq<Member>, key: Text, val: Json, depth: nat)
    requires MembersFit(data, depth) && Fit(val, depth)
    ensures MembersFit(Assign(data, key, val), depth)
  {
    hide Fit, Less;
    if data == [] {
    } else if Less(data[0].key, key) {
      AssignFits(data[1..], key, val, depth);
      var rest := Assign(data[1..], key, val);
      forall k | 0 <= k < |rest| ensures Less(data[0].key, rest[k].key) {
        AssignKeys(data[1..], key, val, k);
      }
    } else if data[0].key != key {
      LessTotal(data[0].key, key);
      forall k | 0 < k < |data| ensures Less(key, data[k].key) { LessTransitive(key, data[0].key, data[k].key); }
    }
  }

  lemma {:induction false} DigitsShort(s: Text)
    requires AllDigits(s) && s != []
    ensures |Digits(Value(s))| <= |s|
  {
    var t := s[..|s| - 1];
    if t != [] {
      DigitsShort(t);
      var v, d := Value(t), s[|s| - 1] - 48;
      assert Value(s) == 10 * v + d && (10 * v + d) / 10 == v;
    }
  }

  // ---------- the printer ----------

  /** `Json::dump`. */
  method AppendJson(v: Json, out0: Text) returns (out: Text)
    ensures out == out0 + Dump(v)
    decreases v, 1
  {
    hide DumpItems, DumpMembers, DumpText;
    match v {
      case Null => out := out0 + NULL_TEXT;
      case Bool(b) => out := out0 + (if b then TRUE_TEXT else FALSE_TEXT);
      case Int(i) => out := out0 + ToText(i);
      case Double(literal) => out := out0 + literal;
      case Str(s) => out := AppendText(s, out0);
      case Arr(items) =>
        out := AppendItems(v, out0 + [OPEN]);
        assert out0 + [OPEN] + DumpItems(v, 0) == out0 + ([OPEN] + DumpItems(v, 0));
      case Obj(members) =>
        out := AppendMembers(v, out0 + [OPEN_OBJECT]);
        assert out0 + [OPEN_OBJECT] + DumpMembers(v, 0) == out0 + ([OPEN_OBJECT] + DumpMembers(v, 0));
    }
  }

  lemma Rejoin(a: Text, b: Text, c: Text, d: Text)
    ensures a + b + c + d == a + (b + (c + d))
  {
  }

  method AppendItems(v: Json, out0: Text) returns (out: Text)
    requires v.Arr?
    ensures out == out0 + DumpItems(v, 0)
    decreases v, 0
  {
    hide Dump;
    out := out0;
    for k := 0 to |v.items|
      invariant out + DumpItems(v, k) == out0 + DumpItems(v, 0)
    {
      ghost var start := out;
      if k > 0 {
        out := out + [COMMA, SPACE];
      }
      out := AppendJson(v.items[k], out);
      Rejoin(start, if k == 0 then [] else [COMMA, SPACE], Dump(v.items[k]), DumpItems(v, k + 1));
    }
    out := out + [CLOSE];
  }

  method AppendMembers(v: Json, out0: Text) returns (out: Text)
    requires v.Obj?
    ensures out == out0 + DumpMembers(v, 0)
    decreases v, 0
  {
    hide Dump, DumpText;
    out := out0;
    for k := 0 to |v.members|
      invariant out + DumpMembers(v, k) == out0 + DumpMembers(v, 0)
    {
      var m := v.members[k];
      ghost var start := out;
      if k > 0 {
        out := out + [COMMA, SPACE];
      }
      out := AppendText(m.key, out);
      ghost var middle := out;
      out := out + [COLON, SPACE];
      out := AppendJson(m.val, out);
      Rejoin(middle, [COLON, SPACE], Dump(m.val), DumpMembers(v, k + 1));
      Rejoin(start, if k == 0 then [] else [COMMA, SPACE], DumpText(m.key),
             [COLON, SPACE] + (Dump(m.val) + DumpMembers(v, k + 1)));
    }
    out := out + [CLOSE_OBJECT];
  }

  lemma {:induction false} SameItself(v: Json)
    ensures Same(v, v)
    decreases v
  {
    match v
    case Arr(items) => forall k | 0 <= k < |items| ensures Same(items[k], items[k]) { SameItself(items[k]); }
    case Obj(members) =>
      forall k | 0 <= k < |members| ensures Same(members[k].val, members[k].val) { SameItself(members[k].val); }
    case _ =>
  }

  // ---------- where it fails ----------

  /** An empty array inside `n` others. */
  function Nested(n: nat): Json { if n == 0 then Arr([]) else Arr([Nested(n - 1)]) }

  lemma {:induction false} NestedTame(n: nat, depth: nat)
    ensures Tame(Nested(n), depth) <==> depth + n <= MAX_DEPTH
    ensures NoDoubles(Nested(n)) && Short(Nested(n))
  {
    if n > 0 {
      NestedTame(n - 1, depth + 1);
      assert Nested(n).items[0] == Nested(n - 1);
    }
  }

  lemma TenLong()
    ensures |ToText(1234567890)| == 10
  {
    assert |Digits(1)| == 1 && |Digits(12)| == 2 && |Digits(123)| == 3 && |Digits(1234)| == 4 && |Digits(12345)| == 5;
    assert |Digits(123456)| == 6 && |Digits(1234567)| == 7 && |Digits(12345678)| == 8 && |Digits(123456789)| == 9;
  }
}
