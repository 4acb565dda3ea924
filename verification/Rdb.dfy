/**
 * The dump file: values, keys with their expiry, databases and the file as a whole. A container is
 * given in the order its elements are walked, which for hash tables is arbitrary.
 */
module Rdb {
  import opened Bytes
  import opened Decimal
  import opened RdbText
  import opened TextOrder
  import opened Strings
  import opened RankOrder
  import opened Reload
  import SortedSet

  type Rank = SortedSet.Rank

  /**
   * Keys and elements are never changed in place, so their encoding is the constructor's; the values of
   * hashes and plain strings carry their own.
   */
  datatype Pair = Pair(key: Text, val: Stored)

  /** A value as it is walked; a sorted set also by its score index. */
  datatype Value =
    | Plain(str: Stored)
    | List(items: seq<Text>)
    | Hash(entries: seq<Pair>)
    | Set(items: seq<Text>)
    | ZSet(nodes: seq<Scored>, ranks: seq<Rank>)

  /** A value as it is: the order of hash tables does not count. */
  datatype Loaded =
    | LoadedPlain(str: Stored)
    | LoadedList(items: seq<Text>)
    | LoadedHash(entries: map<Text, Stored>)
    | LoadedSet(elements: set<Text>)
    | LoadedZSet(nodes: seq<Scored>, ranks: seq<Rank>)

  function Reloaded(s: Stored): Stored { if s.Valid() then Restored(s) else s }

  ghost function Slots(es: seq<Pair>): (r: seq<Slot<Stored>>)
    ensures |r| == |es| && forall i :: 0 <= i < |es| ==> r[i] == Slot(es[i].key, es[i].val, Reloaded(es[i].val))
  {
    seq(|es|, i requires 0 <= i < |es| => Slot(es[i].key, es[i].val, Reloaded(es[i].val)))
  }

  /** The value as it was saved. */
  ghost function Original(v: Value): Loaded {
    match v
    case Plain(str) => LoadedPlain(str)
    case List(items) => LoadedList(items)
    case Hash(entries) => LoadedHash(Was(Slots(entries)))
    case Set(items) => LoadedSet(Elements(items))
    case ZSet(nodes, ranks) => LoadedZSet(nodes, ranks)
  }

  /** The value as it is loaded: strings as they come back, and the score index built anew. */
  ghost function View(v: Value): Loaded {
    match v
    case Plain(str) => LoadedPlain(Reloaded(str))
    case List(items) => LoadedList(BackAll(items))
    case Hash(entries) => LoadedHash(Now(Slots(entries)))
    case Set(items) => LoadedSet(Elements(BackAll(items)))
    case ZSet(nodes, _) => LoadedZSet(Kept(nodes), Ranked(Kept(nodes)))
  }

  // ---------- what fits, what can be saved, what comes back ----------

  /** Configuration: whether strings are compressed. */
  datatype Config = Config(compress: bool)

  predicate StringSaves(c: Config, s: Stored) { s.Valid() && Saves(s, c.compress) }

  predicate StringSurvives(c: Config, s: Stored) { s.Valid() && Survives(s, c.compress) }

  predicate NameSaves(c: Config, t: Text) { StringSaves(c, FromText(t)) }

  predicate NameSurvives(c: Config, t: Text) { StringSurvives(c, FromText(t)) }

  predicate TextsFit(c: Config, ts: seq<Text>) {
    |ts| < SIZE_LIMIT && forall i :: 0 <= i < |ts| ==> SizeOk(ts[i], c.compress)
  }

  ghost predicate EntriesFit(c: Config, es: seq<Pair>) {
    && |es| < SIZE_LIMIT && DistinctKeys(Slots(es))
    && forall i :: 0 <= i < |es| ==>
         SizeOk(es[i].key, c.compress) && es[i].val.Valid() && SizeOk(es[i].val.data, c.compress)
  }

  ghost predicate NodesFit(c: Config, nodes: seq<Scored>) {
    && |nodes| < SIZE_LIMIT && DistinctNames(nodes)
    && forall i :: 0 <= i < |nodes| ==> SizeOk(nodes[i].name, c.compress) && INT_MIN <= nodes[i].score <= INT_MAX
  }

  /** Values the database can hold, within the sizes the format can write. */
  ghost predicate ValueOk(c: Config, v: Value) {
    match v
    case Plain(str) => str.Valid() && SizeOk(str.data, c.compress)
    case List(items) => TextsFit(c, items)
    case Hash(entries) => EntriesFit(c, entries)
    case Set(items) => TextsFit(c, items)
    case ZSet(nodes, ranks) => NodesFit(c, nodes) && SortedSet.RanksOk(ranks, ScoresOf(nodes))
  }

  predicate TextsSave(c: Config, ts: seq<Text>) { forall i :: 0 <= i < |ts| ==> NameSaves(c, ts[i]) }

  predicate EntriesSave(c: Config, es: seq<Pair>) {
    forall i :: 0 <= i < |es| ==> NameSaves(c, es[i].key) && StringSaves(c, es[i].val)
  }

  predicate NodesSave(c: Config, es: seq<Scored>) { forall i :: 0 <= i < |es| ==> NameSaves(c, es[i].name) }

  /** None of its strings makes the save fail. */
  predicate Savable(c: Config, v: Value) {
    match v
    case Plain(str) => StringSaves(c, str)
    case List(items) => TextsSave(c, items)
    case Hash(entries) => EntriesSave(c, entries)
    case Set(items) => TextsSave(c, items)
    case ZSet(nodes, _) => NodesSave(c, nodes)
  }

  predicate TextsSurvive(c: Config, ts: seq<Text>) { forall i :: 0 <= i < |ts| ==> NameSurvives(c, ts[i]) }

  predicate EntriesSurvive(c: Config, es: seq<Pair>) {
    forall i :: 0 <= i < |es| ==> NameSurvives(c, es[i].key) && StringSurvives(c, es[i].val)
  }

  predicate NodesSurvive(c: Config, es: seq<Scored>) { forall i :: 0 <= i < |es| ==> NameSurvives(c, es[i].name) }

  /** All its strings survive, and members of equal score are ranked in the order they were added. */
  ghost predicate ValueSurvives(c: Config, v: Value) {
    match v
    case Plain(str) => StringSurvives(c, str)
    case List(items) => TextsSurvive(c, items)
    case Hash(entries) => EntriesSurvive(c, entries)
    case Set(items) => TextsSurvive(c, items)
    case ZSet(nodes, ranks) => NodesSurvive(c, nodes) && InListOrder(ranks, nodes)
  }

  lemma StringBack(c: Config, s: Stored)
    requires s.Valid()
    ensures StringSaves(c, s) && Reloaded(s) == s <==> StringSurvives(c, s)
  {
    SurvivesWhen(s, c.compress);
  }

  lemma NameBack(c: Config, t: Text)
    ensures NameSaves(c, t) && Back(t) == t <==> NameSurvives(c, t)
  {
    SurvivesWhen(FromText(t), c.compress);
    BackTwice(t);
  }

  lemma TextsBackWhen(c: Config, ts: seq<Text>)
    requires TextsSave(c, ts)
    ensures AllBack(ts) <==> TextsSurvive(c, ts)
  {
    hide Back, NameSaves, NameSurvives;
    forall i | 0 <= i < |ts| ensures Back(ts[i]) == ts[i] <==> NameSurvives(c, ts[i]) { NameBack(c, ts[i]); }
  }

  lemma EntriesBackWhen(c: Config, es: seq<Pair>)
    requires EntriesFit(c, es) && EntriesSave(c, es)
    ensures Now(Slots(es)) == Was(Slots(es)) <==> EntriesSurvive(c, es)
  {
    hide Back, NameSaves, NameSurvives, StringSaves, StringSurvives, Now, Was, Reloaded;
    TableBackWhen(Slots(es));
    forall i | 0 <= i < |es|
      ensures SlotBack(Slots(es)[i]) <==> NameSurvives(c, es[i].key) && StringSurvives(c, es[i].val)
    {
      NameBack(c, es[i].key);
      StringBack(c, es[i].val);
    }
    assert EntriesSurvive(c, es) ==> forall i :: 0 <= i < |es| ==> SlotBack(Slots(es)[i]);
    assert (forall i :: 0 <= i < |es| ==> SlotBack(Slots(es)[i])) ==> EntriesSurvive(c, es);
  }

  lemma NodesBackWhen(c: Config, es: seq<Scored>)
    requires DistinctNames(es) && NodesSave(c, es)
    ensures Kept(es) == es <==> NodesSurvive(c, es)
  {
    hide Back, NameSaves, NameSurvives, Kept;
    MembersBackWhen(es);
    forall i | 0 <= i < |es| ensures Back(es[i].name) == es[i].name <==> NameSurvives(c, es[i].name) {
      NameBack(c, es[i].name);
    }
  }

  /** A value that can be saved is loaded as it was exactly when it survives. */
  lemma BackWhen(c: Config, v: Value)
    requires ValueOk(c, v) && Savable(c, v)
    ensures View(v) == Original(v) <==> ValueSurvives(c, v)
  {
    hide TextsSave, TextsSurvive, EntriesSave, EntriesSurvive, NodesSave, NodesSurvive, AllBack, InListOrder, Elements,
      Now, Was, Kept, Ranked, StringSaves, StringSurvives, Reloaded, ScoresOf;
    match v
    case Plain(str) => StringBack(c, str);
    case List(items) => TextsBackWhen(c, items); BackWhenAll(items);
    case Hash(entries) => EntriesBackWhen(c, entries);
    case Set(items) => TextsBackWhen(c, items); BackWhenAll(items);
    case ZSet(nodes, ranks) => NodesBackWhen(c, nodes); RankedWhen(nodes, ranks);
  }

  lemma SurvivorSaves(c: Config, v: Value)
    requires ValueSurvives(c, v)
    ensures Savable(c, v)
  {
  }

  // ---------- sequences of encodings ----------

  ghost function Flat(bs: seq<seq<byte>>): seq<byte> { if bs == [] then [] else bs[0] + Flat(bs[1..]) }

  lemma {:induction false} FlatAppend(bs: seq<seq<byte>>, b: seq<byte>)
    ensures Flat(bs + [b]) == Flat(bs) + b
  {
    if bs == [] {
      assert [] + [b] == [b] && [b][1..] == [];
      assert Flat([b]) == b + Flat([]);
    } else {
      assert (bs + [b])[1..] == bs[1..] + [b];
      FlatAppend(bs[1..], b);
    }
  }

  lemma FlatHead(bs: seq<seq<byte>>, i: nat)
    requires i < |bs|
    ensures Flat(bs[i..]) == bs[i] + Flat(bs[i + 1..])
  {
    assert bs[i..][0] == bs[i] && bs[i..][1..] == bs[i + 1..];
  }

  lemma EmptyFlat()
    ensures Flat([]) == []
  {
  }

  ghost predicate TextsBytes(bs: seq<seq<byte>>, ts: seq<Text>) {
    |bs| == |ts| && forall i :: 0 <= i < |bs| ==> TextBytes(bs[i], FromText(ts[i]))
  }

  /** `List::EncodeValue` and `Set::EncodeValue`, after the size. */
  method EncodeTexts(c: Config, ts: seq<Text>) returns (b: Option<seq<byte>>, ghost bs: seq<seq<byte>>)
    requires TextsFit(c, ts)
    ensures b.Some? <==> TextsSave(c, ts)
    ensures b.Some? ==> TextsBytes(bs, ts) && b.value == Flat(bs)
  {
    hide TextBytes, Flat, Saves;
    var a: seq<byte> := [];
    bs := [];
    EmptyFlat();
    for i := 0 to |ts|
      invariant TextsBytes(bs, ts[..i]) && a == Flat(bs) && forall k :: 0 <= k < i ==> NameSaves(c, ts[k])
    {
      var e := EncodeText(FromText(ts[i]), c.compress);
      if e.None? {
        return None, bs;
      }
      FlatAppend(bs, e.value);
      a, bs := a + e.value, bs + [e.value];
    }
    b := Some(a);
  }

  /** A key or element. */
  method DecodeName(src: Source, ghost b: seq<byte>, ghost t: Text, ghost rest: seq<byte>) returns (r: Text)
    requires TextBytes(b, FromText(t)) && src.data == b + rest
    modifies src
    ensures r == Back(t) && src.data == rest
  {
    var s := DecodeText(src, b, FromText(t), rest);
    r := s.data;
  }

  /** The loops of `List::DecodeValue` and `Set::DecodeValue`. */
  method DecodeTexts(src: Source, n: nat, ghost bs: seq<seq<byte>>, ghost ts: seq<Text>, ghost rest: seq<byte>)
    returns (r: seq<Text>)
    requires TextsBytes(bs, ts) && n == |ts| && src.data == Flat(bs) + rest
    modifies src
    ensures r == BackAll(ts) && src.data == rest
  {
    hide TextBytes, Flat, Back;
    r := [];
    assert bs[0..] == bs;
    for i := 0 to n
      invariant r == BackAll(ts)[..i] && src.data == Flat(bs[i..]) + rest
    {
      FlatHead(bs, i);
      assert src.data == bs[i] + (Flat(bs[i + 1..]) + rest);
      var t := DecodeName(src, bs[i], ts[i], Flat(bs[i + 1..]) + rest);
      r := r + [t];
    }
    assert bs[n..] == [];
    EmptyFlat();
    assert [] + rest == rest;
  }

  // ---------- hashes ----------

  ghost predicate PairBytes(b: seq<byte>, e: Pair) {
    exists k: seq<byte>, v: seq<byte> :: TextBytes(k, FromText(e.key)) && TextBytes(v, e.val) && b == k + v
  }

  ghost predicate PairsBytes(bs: seq<seq<byte>>, es: seq<Pair>) {
    |bs| == |es| && forall i :: 0 <= i < |bs| ==> PairBytes(bs[i], es[i])
  }

  method EncodePair(c: Config, e: Pair) returns (b: Option<seq<byte>>)
    requires SizeOk(e.key, c.compress) && e.val.Valid() && SizeOk(e.val.data, c.compress)
    ensures b.Some? <==> NameSaves(c, e.key) && StringSaves(c, e.val)
    ensures b.Some? ==> PairBytes(b.value, e)
  {
    hide TextBytes, Saves;
    var k := EncodeText(FromText(e.key), c.compress);
    if k.None? {
      return None;
    }
    var v := EncodeText(e.val, c.compress);
    b := if v.Some? then Some(k.value + v.value) else None;
  }

  method DecodePair(src: Source, ghost b: seq<byte>, ghost e: Pair, ghost rest: seq<byte>) returns (k: Text, v: Stored)
    requires PairBytes(b, e) && src.data == b + rest
    modifies src
    ensures k == Back(e.key) && v == Reloaded(e.val) && src.data == rest
  {
    hide TextBytes, Back, Restored;
    ghost var kb: seq<byte>, vb: seq<byte> :| TextBytes(kb, FromText(e.key)) && TextBytes(vb, e.val) && b == kb + vb;
    assert src.data == kb + (vb + rest);
    PlainValid(vb, e.val);
    k := DecodeName(src, kb, e.key, vb + rest);
    v := DecodeText(src, vb, e.val, rest);
  }

  /** `Hash::EncodeValue`, after the size. */
  method EncodeHash(c: Config, es: seq<Pair>) returns (b: Option<seq<byte>>, ghost bs: seq<seq<byte>>)
    requires EntriesFit(c, es)
    ensures b.Some? <==> EntriesSave(c, es)
    ensures b.Some? ==> PairsBytes(bs, es) && b.value == Flat(bs)
  {
    hide PairBytes, Flat, NameSaves, StringSaves, DistinctKeys;
    var a: seq<byte> := [];
    bs := [];
    EmptyFlat();
    for i := 0 to |es|
      invariant PairsBytes(bs, es[..i]) && a == Flat(bs)
      invariant forall k :: 0 <= k < i ==> NameSaves(c, es[k].key) && StringSaves(c, es[k].val)
    {
      var e := EncodePair(c, es[i]);
      if e.None? {
        return None, bs;
      }
      FlatAppend(bs, e.value);
      a, bs := a + e.value, bs + [e.value];
    }
    b := Some(a);
  }

  /** The loop of `Hash::DecodeValue`: an entry is inserted only under a new key. */
  method DecodeHash(src: Source, n: nat, ghost bs: seq<seq<byte>>, ghost es: seq<Pair>, ghost rest: seq<byte>)
    returns (r: map<Text, Stored>)
    requires PairsBytes(bs, es) && n == |es| && src.data == Flat(bs) + rest
    modifies src
    ensures r == Now(Slots(es)) && src.data == rest
  {
    hide PairBytes, Flat, Now, Back, Reloaded;
    r := map[];
    EmptyNow<Stored>();
    assert bs[0..] == bs && Slots(es)[..0] == [];
    for i := 0 to n
      invariant r == Now(Slots(es)[..i]) && src.data == Flat(bs[i..]) + rest
    {
      FlatHead(bs, i);
      assert src.data == bs[i] + (Flat(bs[i + 1..]) + rest);
      var k, v := DecodePair(src, bs[i], es[i], Flat(bs[i + 1..]) + rest);
      NowNext(Slots(es), i);
      if k !in r {
        r := r[k := v];
      }
    }
    assert bs[n..] == [] && Slots(es)[..n] == Slots(es);
    EmptyFlat();
    assert [] + rest == rest;
  }

  lemma EmptyNow<V>()
    ensures Now<V>([]) == map[]
  {
  }

  // ---------- sorted sets ----------

  ghost predicate NodeBytes(b: seq<byte>, e: Scored) {
    INT_MIN <= e.score <= INT_MAX && exists k: seq<byte> :: TextBytes(k, FromText(e.name)) && b == IntBits(e.score) + k
  }

  ghost predicate NodesBytes(bs: seq<seq<byte>>, es: seq<Scored>) {
    |bs| == |es| && forall i :: 0 <= i < |bs| ==> NodeBytes(bs[i], es[i])
  }

  /** `ZSet::EncodeValue`, after the size: the list in insertion order. */
  method EncodeNodes(c: Config, es: seq<Scored>) returns (b: Option<seq<byte>>, ghost bs: seq<seq<byte>>)
    requires NodesFit(c, es)
    ensures b.Some? <==> NodesSave(c, es)
    ensures b.Some? ==> NodesBytes(bs, es) && b.value == Flat(bs)
  {
    hide TextBytes, Flat, IntBits, DistinctNames, Saves;
    var a: seq<byte> := [];
    bs := [];
    EmptyFlat();
    for i := 0 to |es|
      invariant NodesBytes(bs, es[..i]) && a == Flat(bs) && forall k :: 0 <= k < i ==> NameSaves(c, es[k].name)
    {
      var k := EncodeText(FromText(es[i].name), c.compress);
      if k.None? {
        return None, bs;
      }
      var e := IntBits(es[i].score) + k.value;
      assert NodeBytes(e, es[i]);
      FlatAppend(bs, e);
      a, bs := a + e, bs + [e];
    }
    b := Some(a);
  }

  method DecodeNode(src: Source, ghost b: seq<byte>, ghost e: Scored, ghost rest: seq<byte>)
    returns (score: int, name: Text)
    requires NodeBytes(b, e) && src.data == b + rest
    modifies src
    ensures score == e.score && name == Back(e.name) && src.data == rest
  {
    hide TextBytes, IntBits, Back;
    ghost var k: seq<byte> :| TextBytes(k, FromText(e.name)) && b == IntBits(e.score) + k;
    assert src.data == IntBits(e.score) + (k + rest);
    score := src.ReadInt(e.score, k + rest);
    name := DecodeName(src, k, e.name, rest);
  }

  /** A sorted set to which these members were added in this order. */
  ghost predicate Holds(z: SortedSet.ZSet, es: seq<Scored>)
    reads z
  {
    && z.Valid() && z.scores == ScoresOf(es) && z.ranks == Ranked(es)
    && |z.listing| == |es| && forall i :: 0 <= i < |es| ==> z.listing[i] == es[i].name
  }

  /** The loop of `ZSet::DecodeValue`: all three indexes are rebuilt, each name once. */
  method DecodeNodes(src: Source, n: nat, ghost bs: seq<seq<byte>>, ghost es: seq<Scored>, ghost rest: seq<byte>)
    returns (z: SortedSet.ZSet)
    requires NodesBytes(bs, es) && n == |es| && src.data == Flat(bs) + rest
    modifies src
    ensures fresh(z) && Holds(z, Kept(es)) && z.Entries() == Kept(es) && src.data == rest
  {
    hide NodeBytes, Flat, Holds, Kept, Back;
    z := new SortedSet.ZSet();
    HoldsNone(z);
    assert bs[0..] == bs && es[..0] == [];
    for i := 0 to n
      invariant fresh(z) && Holds(z, Kept(es[..i])) && src.data == Flat(bs[i..]) + rest
    {
      FlatHead(bs, i);
      assert src.data == bs[i] + (Flat(bs[i + 1..]) + rest);
      var score, name := DecodeNode(src, bs[i], es[i], Flat(bs[i + 1..]) + rest);
      AddNext(z, score, name, es, i);
    }
    assert bs[n..] == [] && es[..n] == es;
    EmptyFlat();
    assert [] + rest == rest;
    KeptFacts(es);
    HoldsEntries(z, Kept(es));
  }

  lemma HoldsNone(z: SortedSet.ZSet)
    requires z.Valid() && z.scores == map[] && z.listing == [] && z.ranks == []
    ensures Holds(z, Kept([]))
  {
  }

  /** One turn of the loop: a member under a name that is already there is passed over. */
  method AddNext(z: SortedSet.ZSet, score: int, name: Text, ghost es: seq<Scored>, ghost i: nat)
    requires i < |es| && name == Back(es[i].name) && score == es[i].score && Holds(z, Kept(es[..i]))
    modifies z
    ensures Holds(z, Kept(es[..i + 1]))
  {
    hide SortedSet.ZSet.Valid, SortedSet.Inserted, Ranked, ScoresOf, Kept, Back, Named;
    ghost var front := Kept(es[..i]);
    KeptNext(es, i);
    KeptFacts(es[..i]);
    NamedWhen(front, name);
    OneMoreMember(front, SortedSet.Scored(name, score));
    ghost var ranks := z.ranks;
    var added := z.Add(score, name);
    if added {
      InsertedIs(ranks, SortedSet.Rank(score, name), z.ranks);
    }
  }

  lemma NamedWhen(es: seq<Scored>, name: Text)
    requires DistinctNames(es)
    ensures name in ScoresOf(es) <==> Named(es, name)
  {
    ScoresOfFacts(es);
  }

  lemma OneMoreMember(es: seq<Scored>, e: Scored)
    ensures ScoresOf(es + [e]) == ScoresOf(es)[e.name := e.score]
    ensures Ranked(es + [e]) == Insert(Ranked(es), SortedSet.Rank(e.score, e.name))
  {
    assert (es + [e])[..|es + [e]| - 1] == es;
  }

  lemma HoldsEntries(z: SortedSet.ZSet, es: seq<Scored>)
    requires Holds(z, es) && DistinctNames(es)
    ensures z.Entries() == es
  {
    EntriesFacts(z);
    ScoresOfFacts(es);
    ScoresOfFacts(z.Entries());
    hide SortedSet.ZSet.Valid, SortedSet.ZSet.Entries, ScoresOf, Ranked;
    forall i | 0 <= i < |es| ensures z.Entries()[i] == es[i] {
      assert z.Entries()[i].name == es[i].name;
    }
  }

  /**
   * Saving and loading a sorted set. It can be saved exactly when all names can. When all names survive, so do
   * scores and list, and the score index exactly when members of equal score stand in it in the order of
   * the list; the whole set survives exactly then.
   */
  method SaveAndLoadZSet(c: Config, z: SortedSet.ZSet) returns (ok: bool, r: SortedSet.ZSet)
    requires z.Valid() && NodesFit(c, z.Entries())
    ensures ok <==> NodesSave(c, z.Entries())
    ensures ok ==> fresh(r) && Holds(r, Kept(z.Entries())) && r.Entries() == Kept(z.Entries())
    ensures NodesSurvive(c, z.Entries()) ==> ok && r.scores == z.scores && r.listing == z.listing
    ensures NodesSurvive(c, z.Entries()) ==>
      r.ranks == Ranked(z.Entries()) && (r.ranks == z.ranks <==> InListOrder(z.ranks, z.Entries()))
    ensures ok && r.Entries() == z.Entries() && r.ranks == z.ranks <==>
      NodesSurvive(c, z.Entries()) && InListOrder(z.ranks, z.Entries())
  {
    hide NodesBytes, Flat, SortedSet.ZSet.Valid, SortedSet.ZSet.Entries, ScoresOf, Ranked, InListOrder, NodesFit,
      SortedSet.RanksOk, Kept, NodesSave, NodesSurvive;
    EntriesFacts(z);
    EntriesRanks(z);
    ghost var es := z.Entries();
    NodesSurvivorsSave(c, es);
    var nodes := z.Walk();
    var b, bs := EncodeNodes(c, nodes);
    if b.None? {
      return false, z;
    }
    var src := new Source(b.value);
    assert b.value + [] == b.value;
    ok := true;
    r := DecodeNodes(src, |nodes|, bs, nodes, []);
    NodesBackWhen(c, es);
    RankedWhen(es, z.ranks);
    if Kept(es) == es { assert r.listing == z.listing; }
  }

  lemma NodesSurvivorsSave(c: Config, es: seq<Scored>)
    ensures NodesSurvive(c, es) ==> NodesSave(c, es)
  {
  }

  lemma EntriesRanks(z: SortedSet.ZSet)
    requires z.Valid()
    ensures SortedSet.RanksOk(z.ranks, z.scores)
  {
  }

  /** `a` with score 1, `b` with score 2, and then `a` incremented by 1. */
  method Tie(a: Text, b: Text) returns (z: SortedSet.ZSet)
    requires a != b
    ensures fresh(z) && z.Valid() && z.listing == [a, b] && z.scores == map[a := 2, b := 2]
    ensures z.ranks == [SortedSet.Rank(2, b), SortedSet.Rank(2, a)]
  {
    hide SortedSet.ZSet.Valid, SortedSet.Inserted, SortedSet.Moved;
    z := new SortedSet.ZSet();
    ghost var r0 := z.ranks;
    var _ := z.Add(1, a);
    InsertedIs(r0, SortedSet.Rank(1, a), z.ranks);
    ghost var r1 := z.ranks;
    var _ := z.Add(2, b);
    InsertedIs(r1, SortedSet.Rank(2, b), z.ranks);
    ghost var r2 := z.ranks;
    var _ := z.IncrBy(1, a);
    TieMoved(a, b, r2, z.ranks);
  }

  lemma TieMoved(a: Text, b: Text, s: seq<Rank>, r: seq<Rank>)
    requires s == [SortedSet.Rank(1, a), SortedSet.Rank(2, b)]
    requires SortedSet.Moved(s, SortedSet.Rank(1, a), SortedSet.Rank(2, a), r)
    ensures r == [SortedSet.Rank(2, b), SortedSet.Rank(2, a)]
  {
    hide SortedSet.Inserted;
    var t: seq<Rank> :| SortedSet.Taken(s, SortedSet.Rank(1, a), t) && SortedSet.Inserted(t, SortedSet.Rank(2, a), r);
    var j :| 0 <= j < |s| && s[j] == SortedSet.Rank(1, a) && t == SortedSet.RemoveAt(s, j);
    assert j == 0;
    assert t == [SortedSet.Rank(2, b)];
    InsertedIs(t, SortedSet.Rank(2, a), r);
  }

  /** After `IncrBy` two members of equal score can stand the other way round than after reloading. */
  method IncrementedThenLoaded(c: Config, a: Text, b: Text) returns (before: seq<Rank>, after: seq<Rank>)
    requires a != b && SizeOk(a, c.compress) && SizeOk(b, c.compress) && NameSurvives(c, a) && NameSurvives(c, b)
    ensures before == [SortedSet.Rank(2, b), SortedSet.Rank(2, a)]
    ensures after == [SortedSet.Rank(2, a), SortedSet.Rank(2, b)]
  {
    hide SortedSet.ZSet.Valid, SortedSet.ZSet.Entries, InListOrder, NameSurvives, ScoresOf, SizeOk, Holds, Kept,
      NodesSave;
    var z := Tie(a, b);
    TieEntries(z, a, b);
    before := z.ranks;
    var ok, r := SaveAndLoadZSet(c, z);
    after := r.ranks;
  }

  lemma TieEntries(z: SortedSet.ZSet, a: Text, b: Text)
    requires z.Valid() && a != b && z.listing == [a, b] && z.scores == map[a := 2, b := 2]
    ensures z.Entries() == [SortedSet.Scored(a, 2), SortedSet.Scored(b, 2)]
    ensures Ranked(z.Entries()) == [SortedSet.Rank(2, a), SortedSet.Rank(2, b)]
  {
    var es := z.Entries();
    EntriesFacts(z);
    hide SortedSet.ZSet.Valid, SortedSet.ZSet.Entries;
    ScoresOfFacts(es);
    hide ScoresOf;
    assert es[0].name == a && es[1].name == b && |es| == 2;
    assert es == [SortedSet.Scored(a, 2), SortedSet.Scored(b, 2)];
    assert es[..1] == [SortedSet.Scored(a, 2)] && es[..1][..0] == [];
    assert Ranked(es[..1][..0]) == [] && Ranked(es[..1]) == [SortedSet.Rank(2, a)];
  }

  // ---------- values ----------

  ghost predicate ValueBytes(b: seq<byte>, v: Value) {
    match v
    case Plain(str) => TextBytes(b, str)
    case List(items) => exists bs :: TextsBytes(bs, items) && Sized(b, |items|, bs)
    case Hash(entries) => exists bs :: PairsBytes(bs, entries) && Sized(b, |entries|, bs)
    case Set(items) => exists bs :: TextsBytes(bs, items) && Sized(b, |items|, bs)
    case ZSet(nodes, _) => exists bs :: NodesBytes(bs, nodes) && Sized(b, |nodes|, bs)
  }

  ghost predicate Sized(b: seq<byte>, n: nat, bs: seq<seq<byte>>) { n < SIZE_LIMIT && b == SizeBits(n) + Flat(bs) }

  function Counted(n: nat, b: Option<seq<byte>>): Option<seq<byte>>
    requires n < SIZE_LIMIT
  {
    if b.Some? then Some(SizeBits(n) + b.value) else None
  }

  /** `EncodeValue` of the five kinds of object; none when a string in it cannot be saved. */
  method EncodeValue(c: Config, v: Value) returns (b: Option<seq<byte>>)
    requires ValueOk(c, v)
    ensures b.Some? <==> Savable(c, v)
    ensures b.Some? ==> ValueBytes(b.value, v)
  {
    hide TextsBytes, PairsBytes, NodesBytes, TextBytes, Flat, SizeBits, TextsSave, EntriesSave, NodesSave, Saves,
      DistinctKeys, DistinctNames;
    ghost var bs: seq<seq<byte>>;
    match v {
      case Plain(str) =>
        b := EncodeText(str, c.compress);
      case List(items) =>
        b, bs := EncodeTexts(c, items);
        b := Counted(|items|, b);
        assert b.Some? ==> Sized(b.value, |items|, bs);
      case Hash(entries) =>
        b, bs := EncodeHash(c, entries);
        b := Counted(|entries|, b);
        assert b.Some? ==> Sized(b.value, |entries|, bs);
      case Set(items) =>
        b, bs := EncodeTexts(c, items);
        b := Counted(|items|, b);
        assert b.Some? ==> Sized(b.value, |items|, bs);
      case ZSet(nodes, _) =>
        b, bs := EncodeNodes(c, nodes);
        b := Counted(|nodes|, b);
        assert b.Some? ==> Sized(b.value, |nodes|, bs);
    }
  }

  // `ObjectTypeToChar`.
  function TypeChar(v: Value): byte {
    match v case Plain(_) => 1 case List(_) => 2 case Hash(_) => 3 case Set(_) => 4 case ZSet(_, _) => 5
  }

  const EXPIRE_ENTRY: byte := 6

  /** The size in front of a container's elements. */
  method ReadCount(src: Source, ghost b: seq<byte>, ghost n: nat, ghost bs: seq<seq<byte>>, ghost rest: seq<byte>)
    returns (r: nat)
    requires Sized(b, n, bs) && src.data == b + rest
    modifies src
    ensures r == n && src.data == Flat(bs) + rest
  {
    assert src.data == SizeBits(n) + (Flat(bs) + rest);
    r := src.ReadSize(n, Flat(bs) + rest);
  }

  /** `DecodeValue` of the kind `kind`. */
  method DecodeValue(src: Source, kind: byte, ghost b: seq<byte>, ghost v: Value, ghost rest: seq<byte>)
    returns (r: Loaded)
    requires ValueBytes(b, v) && kind == TypeChar(v) && src.data == b + rest
    modifies src
    ensures r == View(v) && src.data == rest
  {
    hide TextsBytes, PairsBytes, NodesBytes, Flat, SizeBits, Sized, Now, Was, Kept, Ranked, Back;
    if kind == 1 {
      PlainValid(b, v.str);
      hide TextBytes;
      var str := DecodeText(src, b, v.str, rest);
      r := LoadedPlain(str);
    } else if kind == 2 {
      ghost var bs :| TextsBytes(bs, v.items) && Sized(b, |v.items|, bs);
      var n := ReadCount(src, b, |v.items|, bs, rest);
      var items := DecodeTexts(src, n, bs, v.items, rest);
      r := LoadedList(items);
    } else if kind == 3 {
      ghost var bs :| PairsBytes(bs, v.entries) && Sized(b, |v.entries|, bs);
      var n := ReadCount(src, b, |v.entries|, bs, rest);
      var entries := DecodeHash(src, n, bs, v.entries, rest);
      r := LoadedHash(entries);
    } else if kind == 4 {
      ghost var bs :| TextsBytes(bs, v.items) && Sized(b, |v.items|, bs);
      var n := ReadCount(src, b, |v.items|, bs, rest);
      var items := DecodeTexts(src, n, bs, v.items, rest);
      r := LoadedSet(set t | t in items);
    } else {
      ghost var bs :| NodesBytes(bs, v.nodes) && Sized(b, |v.nodes|, bs);
      var n := ReadCount(src, b, |v.nodes|, bs, rest);
      var z := DecodeNodes(src, n, bs, v.nodes, rest);
      var nodes := z.Walk();
      r := LoadedZSet(nodes, z.ranks);
    }
  }

  lemma PlainValid(b: seq<byte>, s: Stored)
    requires TextBytes(b, s)
    ensures s.Valid()
  {
  }

  // ---------- keys ----------

  datatype KeyValue = KeyValue(key: Text, value: Value, expire: Option<nat>)

  /** A loaded key's value and expiry time. */
  datatype Held = Held(value: Loaded, expire: Option<nat>)

  ghost predicate KeyOk(c: Config, kv: KeyValue) {
    SizeOk(kv.key, c.compress) && ValueOk(c, kv.value) && (kv.expire.Some? ==> kv.expire.value < SIZE_LIMIT)
  }

  predicate KeySaves(c: Config, kv: KeyValue) { NameSaves(c, kv.key) && Savable(c, kv.value) }

  ghost predicate KeySurvives(c: Config, kv: KeyValue) { NameSurvives(c, kv.key) && ValueSurvives(c, kv.value) }

  /** `InternalPrefixEncode`: the expiry time, if any, and the kind of the value. */
  function Prefix(kv: KeyValue): seq<byte>
    requires kv.expire.Some? ==> kv.expire.value < SIZE_LIMIT
  {
    (if kv.expire.Some? then [EXPIRE_ENTRY] + SizeBits(kv.expire.value) else []) + [TypeChar(kv.value)]
  }

  ghost predicate KeyBytes(b: seq<byte>, kv: KeyValue) {
    && (kv.expire.Some? ==> kv.expire.value < SIZE_LIMIT)
    && exists k: seq<byte>, v: seq<byte> ::
         TextBytes(k, FromText(kv.key)) && ValueBytes(v, kv.value) && b == Prefix(kv) + (k + v)
  }

  /** `KeyValue::Encode`. */
  method EncodeKey(c: Config, kv: KeyValue) returns (b: Option<seq<byte>>)
    requires KeyOk(c, kv)
    ensures b.Some? <==> KeySaves(c, kv)
    ensures b.Some? ==> KeyBytes(b.value, kv)
  {
    hide TextBytes, ValueBytes, ValueOk, Prefix, Saves, Savable;
    var k := EncodeText(FromText(kv.key), c.compress);
    if k.None? {
      return None;
    }
    var v := EncodeValue(c, kv.value);
    b := if v.Some? then Some(Prefix(kv) + (k.value + v.value)) else None;
  }

  /** The start of `KeyValue::Decode`: the expiry time and the kind. */
  method DecodePrefix(src: Source, ghost kv: KeyValue, ghost rest: seq<byte>) returns (kind: byte, expire: Option<nat>)
    requires (kv.expire.Some? ==> kv.expire.value < SIZE_LIMIT) && src.data == Prefix(kv) + rest
    modifies src
    ensures kind == TypeChar(kv.value) && expire == kv.expire && src.data == rest
  {
    hide SizeBits;
    expire := None;
    ghost var tail := [TypeChar(kv.value)] + rest;
    assert kv.expire.Some? ==> src.data[0] == EXPIRE_ENTRY && src.data[1..] == SizeBits(kv.expire.value) + tail;
    assert kv.expire.None? ==> src.data == tail;
    assert tail[0] == TypeChar(kv.value) && tail[1..] == rest;
    kind := src.Pop();
    if kind == EXPIRE_ENTRY {
      var t := src.ReadSize(kv.expire.value, tail);
      expire := Some(t);
      kind := src.Pop();
    }
  }

  /** `KeyValue::Decode`. */
  method DecodeKey(src: Source, ghost b: seq<byte>, ghost kv: KeyValue, ghost rest: seq<byte>)
    returns (key: Text, held: Held)
    requires KeyBytes(b, kv) && src.data == b + rest
    modifies src
    ensures key == Back(kv.key) && held == Held(View(kv.value), kv.expire) && src.data == rest
  {
    hide TextBytes, ValueBytes, Prefix, View, Back;
    ghost var k: seq<byte>, v: seq<byte> :|
      TextBytes(k, FromText(kv.key)) && ValueBytes(v, kv.value) && b == Prefix(kv) + (k + v);
    assert src.data == Prefix(kv) + (k + (v + rest));
    var kind, expire := DecodePrefix(src, kv, k + (v + rest));
    key := DecodeName(src, k, kv.key, v + rest);
    var value := DecodeValue(src, kind, v, kv.value, rest);
    held := Held(value, expire);
  }

  // ---------- databases ----------

  const SELECT_DB: byte := 115

  datatype Db = Db(number: int, keys: seq<KeyValue>)

  datatype LoadedDb = LoadedDb(number: int, keys: map<Text, Held>)

  ghost function KeySlots(keys: seq<KeyValue>): (r: seq<Slot<Held>>)
    ensures |r| == |keys|
    ensures forall i :: 0 <= i < |keys| ==> r[i] == KeySlot(keys[i])
  {
    seq(|keys|, i requires 0 <= i < |keys| => KeySlot(keys[i]))
  }

  ghost function KeySlot(kv: KeyValue): Slot<Held> {
    Slot(kv.key, Held(Original(kv.value), kv.expire), Held(View(kv.value), kv.expire))
  }

  ghost predicate DbOk(c: Config, db: Db) {
    && INT_MIN <= db.number <= INT_MAX && 0 < |db.keys| < SIZE_LIMIT
    && (forall i :: 0 <= i < |db.keys| ==> KeyOk(c, db.keys[i]))
    && DistinctKeys(KeySlots(db.keys))
  }

  predicate DbSaves(c: Config, db: Db) { forall i :: 0 <= i < |db.keys| ==> KeySaves(c, db.keys[i]) }

  ghost predicate DbSurvives(c: Config, db: Db) { forall i :: 0 <= i < |db.keys| ==> KeySurvives(c, db.keys[i]) }

  /** The database as it was saved, and as it is loaded. */
  ghost function DbOriginal(db: Db): LoadedDb { LoadedDb(db.number, Was(KeySlots(db.keys))) }

  ghost function DbView(db: Db): LoadedDb { LoadedDb(db.number, Now(KeySlots(db.keys))) }

  /** A database comes back exactly when every key and every value does. */
  lemma DbBackWhen(c: Config, db: Db)
    requires DbOk(c, db) && DbSaves(c, db)
    ensures DbView(db) == DbOriginal(db) <==> DbSurvives(c, db)
  {
    hide Now, Was, KeyOk, KeySaves, KeySurvives, View, Original;
    var slots := KeySlots(db.keys);
    TableBackWhen(slots);
    forall i | 0 <= i < |db.keys| ensures SlotBack(slots[i]) <==> KeySurvives(c, db.keys[i]) {
      KeyBackWhen(c, db.keys[i], slots[i]);
    }
    assert DbSurvives(c, db) ==> forall i :: 0 <= i < |slots| ==> SlotBack(slots[i]);
    assert (forall i :: 0 <= i < |slots| ==> SlotBack(slots[i])) ==> DbSurvives(c, db);
  }

  lemma KeyBackWhen(c: Config, kv: KeyValue, e: Slot<Held>)
    requires KeyOk(c, kv) && KeySaves(c, kv) && e == KeySlot(kv)
    ensures SlotBack(e) <==> KeySurvives(c, kv)
  {
    hide ValueOk, Savable, View, Original, ValueSurvives, Back, NameSaves, NameSurvives;
    NameBack(c, kv.key);
    BackWhen(c, kv.value);
  }

  ghost predicate KeysBytes(bs: seq<seq<byte>>, keys: seq<KeyValue>) {
    |bs| == |keys| && forall i :: 0 <= i < |bs| ==> KeyBytes(bs[i], keys[i])
  }

  ghost predicate DbBytes(b: seq<byte>, db: Db) {
    && INT_MIN <= db.number <= INT_MAX
    && exists k: seq<byte>, bs ::
         KeysBytes(bs, db.keys) && Sized(k, |db.keys|, bs) && b == [SELECT_DB] + (IntBits(db.number) + k)
  }

  method EncodeKeys(c: Config, keys: seq<KeyValue>) returns (b: Option<seq<byte>>, ghost bs: seq<seq<byte>>)
    requires forall i :: 0 <= i < |keys| ==> KeyOk(c, keys[i])
    ensures b.Some? <==> forall i :: 0 <= i < |keys| ==> KeySaves(c, keys[i])
    ensures b.Some? ==> KeysBytes(bs, keys) && b.value == Flat(bs)
  {
    hide KeyBytes, Flat, KeyOk, KeySaves;
    var a: seq<byte> := [];
    bs := [];
    EmptyFlat();
    for i := 0 to |keys|
      invariant KeysBytes(bs, keys[..i]) && a == Flat(bs) && forall k :: 0 <= k < i ==> KeySaves(c, keys[k])
    {
      var e := EncodeKey(c, keys[i]);
      if e.None? {
        return None, bs;
      }
      FlatAppend(bs, e.value);
      a, bs := a + e.value, bs + [e.value];
    }
    b := Some(a);
  }

  /** `Db::Save`: nothing at all for an empty database; none when a string cannot be saved. */
  method SaveDb(c: Config, db: Db) returns (b: Option<seq<byte>>)
    requires db.keys != [] ==> DbOk(c, db)
    ensures b.Some? <==> DbSaves(c, db)
    ensures b.Some? ==> if db.keys == [] then b.value == [] else DbBytes(b.value, db)
  {
    hide KeysBytes, Flat, IntBits, SizeBits, KeyOk, KeySaves, DistinctKeys;
    if db.keys == [] {
      return Some([]);
    }
    var k, bs := EncodeKeys(c, db.keys);
    if k.None? {
      return None;
    }
    var body := SizeBits(|db.keys|) + k.value;
    assert Sized(body, |db.keys|, bs);
    b := Some([SELECT_DB] + (IntBits(db.number) + body));
  }

  method DecodeKeys(src: Source, n: nat, ghost bs: seq<seq<byte>>, ghost keys: seq<KeyValue>, ghost rest: seq<byte>)
    returns (r: map<Text, Held>)
    requires KeysBytes(bs, keys) && n == |keys| && src.data == Flat(bs) + rest
    modifies src
    ensures r == Now(KeySlots(keys)) && src.data == rest
  {
    hide KeyBytes, Flat, Now, View, Original, Back;
    r := map[];
    EmptyNow<Held>();
    assert bs[0..] == bs && KeySlots(keys)[..0] == [];
    for i := 0 to n
      invariant r == Now(KeySlots(keys)[..i]) && src.data == Flat(bs[i..]) + rest
    {
      FlatHead(bs, i);
      assert src.data == bs[i] + (Flat(bs[i + 1..]) + rest);
      var k, held := DecodeKey(src, bs[i], keys[i], Flat(bs[i + 1..]) + rest);
      NowNext(KeySlots(keys), i);
      if k !in r {
        r := r[k := held];
      }
    }
    assert bs[n..] == [] && KeySlots(keys)[..n] == KeySlots(keys);
    EmptyFlat();
    assert [] + rest == rest;
  }

  /** `Db::Load`: consumes exactly one database's bytes; none, for the exception, at anything else. */
  method LoadDb(src: Source, ghost b: seq<byte>, ghost db: Db, ghost rest: seq<byte>) returns (r: Option<LoadedDb>)
    requires src.data != [] && (src.data[0] == SELECT_DB ==> DbBytes(b, db) && src.data == b + rest)
    modifies src
    ensures r.None? <==> old(src.data)[0] != SELECT_DB
    ensures r.Some? ==> r.value == DbView(db) && src.data == rest
  {
    hide KeysBytes, Flat, IntBits, SizeBits, Now, Sized;
    ghost var data := src.data;
    var s := src.Pop();
    if s != SELECT_DB {
      return None;
    }
    ghost var k: seq<byte>, bs :|
      KeysBytes(bs, db.keys) && Sized(k, |db.keys|, bs) && b == [SELECT_DB] + (IntBits(db.number) + k);
    assert data[1..] == IntBits(db.number) + (k + rest);
    var number := src.ReadInt(db.number, k + rest);
    var n := ReadCount(src, k, |db.keys|, bs, rest);
    var keys := DecodeKeys(src, n, bs, db.keys, rest);
    r := Some(LoadedDb(number, keys));
  }

  // ---------- the file ----------

  const MAGIC: seq<byte> := [82, 68, 66]

  ghost predicate DbsBytes(bs: seq<seq<byte>>, dbs: seq<Db>) {
    |bs| == |dbs| && forall i :: 0 <= i < |bs| ==> DbBytes(bs[i], dbs[i])
  }

  ghost function Views(dbs: seq<Db>): seq<LoadedDb> { seq(|dbs|, i requires 0 <= i < |dbs| => DbView(dbs[i])) }

  ghost function Originals(dbs: seq<Db>): seq<LoadedDb> { seq(|dbs|, i requires 0 <= i < |dbs| => DbOriginal(dbs[i])) }

  /** `RDBSave` of the databases; none when a string in one of them cannot be saved. */
  method Save(c: Config, dbs: seq<Db>) returns (b: Option<seq<byte>>, ghost bs: seq<seq<byte>>)
    requires forall i :: 0 <= i < |dbs| ==> DbOk(c, dbs[i])
    ensures b.Some? <==> forall i :: 0 <= i < |dbs| ==> DbSaves(c, dbs[i])
    ensures b.Some? ==> DbsBytes(bs, dbs) && b.value == MAGIC + Flat(bs)
  {
    hide DbBytes, Flat, DbSaves;
    var a: seq<byte> := [];
    bs := [];
    EmptyFlat();
    for i := 0 to |dbs|
      invariant DbsBytes(bs, dbs[..i]) && a == Flat(bs) && forall k :: 0 <= k < i ==> DbSaves(c, dbs[k])
    {
      var e := SaveDb(c, dbs[i]);
      if e.None? {
        return None, bs;
      }
      FlatAppend(bs, e.value);
      a, bs := a + e.value, bs + [e.value];
    }
    b := Some(MAGIC + a);
  }

  /** A written database is not empty, so the loop of `RDBLoad` makes progress. */
  lemma NotEmpty(bs: seq<seq<byte>>, dbs: seq<Db>, i: nat)
    requires DbsBytes(bs, dbs) && i <= |bs|
    ensures Flat(bs[i..]) == [] <==> i == |bs|
  {
    if i < |bs| {
      FlatHead(bs, i);
      assert DbBytes(bs[i], dbs[i]);
    }
  }

  /** `RDBLoad`: every database comes back and the input is used up; no database without the magic. */
  method Load(src: Source, ghost bs: seq<seq<byte>>, ghost dbs: seq<Db>) returns (r: seq<LoadedDb>)
    requires |src.data| >= 3
    requires src.data[..3] == MAGIC ==> DbsBytes(bs, dbs) && src.data[3..] == Flat(bs)
    modifies src
    ensures if old(src.data)[..3] == MAGIC then r == Views(dbs) && src.data == [] else r == []
  {
    hide DbBytes, Flat, DbView;
    r := [];
    var magic := src.PeekString(3);
    if magic != MAGIC {
      return;
    }
    assert bs[0..] == bs;
    ghost var i := 0;
    NotEmpty(bs, dbs, 0);
    while src.data != []
      invariant 0 <= i <= |bs| && src.data == Flat(bs[i..]) && r == Views(dbs[..i])
      invariant src.data == [] <==> i == |bs|
      decreases |bs| - i
    {
      FlatHead(bs, i);
      Selected(bs[i], dbs[i]);
      var db := LoadDb(src, bs[i], dbs[i], Flat(bs[i + 1..]));
      r, i := r + [db.value], i + 1;
      NotEmpty(bs, dbs, i);
    }
    assert dbs[..i] == dbs;
  }

  lemma Selected(b: seq<byte>, db: Db)
    requires DbBytes(b, db)
    ensures |b| > 0 && b[0] == SELECT_DB
  {
  }

  /**
   * Saving and loading, whatever the order the tables were walked in. The save fails exactly when a string
   * cannot be saved. A database comes back as it was exactly when all its strings survive and no sorted set
   * has members of equal score out of order, and the file does exactly when all databases do.
   */
  method RoundTrip(c: Config, dbs: seq<Db>) returns (r: Option<seq<LoadedDb>>)
    requires forall i :: 0 <= i < |dbs| ==> DbOk(c, dbs[i])
    ensures r.Some? <==> forall i :: 0 <= i < |dbs| ==> DbSaves(c, dbs[i])
    ensures r.Some? ==> r.value == Views(dbs)
    ensures r.Some? ==> forall i :: 0 <= i < |dbs| ==> (r.value[i] == DbOriginal(dbs[i]) <==> DbSurvives(c, dbs[i]))
    ensures r == Some(Originals(dbs)) <==> forall i :: 0 <= i < |dbs| ==> DbSurvives(c, dbs[i])
  {
    hide DbsBytes, Flat, DbOk, DbView, DbOriginal, DbSaves, DbSurvives;
    SurvivorsSave(c, dbs);
    var b, bs := Save(c, dbs);
    if b.None? {
      return None;
    }
    assert b.value[..3] == MAGIC && b.value[3..] == Flat(bs);
    var src := new Source(b.value);
    var loaded := Load(src, bs, dbs);
    r := Some(loaded);
    AllBackWhen(c, dbs);
  }

  // ---------- the bytes of small dumps ----------

  const SEVEN: Text := [55]
  const SEVEN_BYTES: seq<byte> := [0, 7, 0, 0, 0]

  lemma SevenBytes(b: seq<byte>)
    requires TextBytes(b, FromText(SEVEN))
    ensures b == SEVEN_BYTES
  {
    SmallBits(7);
    hide IntBits, SizeBits;
    assert Stoi(SEVEN) == 7 by { assert SEVEN[..0] == []; }
  }

  // The magic, the mark of a database, its number and one key.
  const HEAD: seq<byte> := [82, 68, 66, 115, 0, 0, 0, 0, 1, 0, 0, 0, 0, 0, 0, 0]
  const ONE: seq<byte> := [1, 0, 0, 0, 0, 0, 0, 0]

  /** One value of each kind, made of the string 7. */
  datatype Kind = OneStr | OneList | OneHash | OneSet | OneZSet

  function Sample(kind: Kind): Value {
    match kind
    case OneStr => Plain(FromText(SEVEN))
    case OneList => List([SEVEN])
    case OneHash => Hash([Pair(SEVEN, FromText(SEVEN))])
    case OneSet => Set([SEVEN])
    case OneZSet => ZSet([SortedSet.Scored(SEVEN, -2)], [SortedSet.Rank(-2, SEVEN)])
  }

  /** What follows the key. */
  function SampleTail(kind: Kind): seq<byte> {
    match kind
    case OneStr => SEVEN_BYTES
    case OneList => ONE + SEVEN_BYTES
    case OneHash => ONE + (SEVEN_BYTES + SEVEN_BYTES)
    case OneSet => ONE + SEVEN_BYTES
    case OneZSet => ONE + ([254, 255, 255, 255] + SEVEN_BYTES)
  }

  function KindByte(kind: Kind): byte {
    match kind case OneStr => 1 case OneList => 2 case OneHash => 3 case OneSet => 4 case OneZSet => 5
  }

  lemma FlatOne(b: seq<byte>)
    ensures Flat([b]) == b
  {
    assert [b][1..] == [] && b + [] == b;
  }

  /** One element after its count. */
  lemma OneElement(vb: seq<byte>, bs: seq<seq<byte>>, b: seq<byte>)
    requires Sized(vb, 1, bs) && bs == [b]
    ensures vb == ONE + b
  {
    hide SizeBits, Flat;
    FlatOne(b);
    SmallBits(1);
  }

  lemma SampleValue(vb: seq<byte>, kind: Kind)
    requires ValueBytes(vb, Sample(kind))
    ensures vb == SampleTail(kind)
  {
    hide TextBytes, SizeBits, IntBits, Flat, Sized, FromText;
    match kind
    case OneStr => SevenBytes(vb);
    case OneHash =>
      var bs :| PairsBytes(bs, [Pair(SEVEN, FromText(SEVEN))]) && Sized(vb, 1, bs);
      SevenPair(bs[0]);
      OneElement(vb, bs, bs[0]);
    case OneZSet =>
      var bs :| NodesBytes(bs, [SortedSet.Scored(SEVEN, -2)]) && Sized(vb, 1, bs);
      SevenNode(bs[0]);
      OneElement(vb, bs, bs[0]);
    case _ =>
      var bs :| TextsBytes(bs, [SEVEN]) && Sized(vb, 1, bs);
      SevenBytes(bs[0]);
      OneElement(vb, bs, bs[0]);
  }

  lemma SevenPair(b: seq<byte>)
    requires PairBytes(b, Pair(SEVEN, FromText(SEVEN)))
    ensures b == SEVEN_BYTES + SEVEN_BYTES
  {
    hide TextBytes, FromText;
    var k: seq<byte>, v: seq<byte> :| TextBytes(k, FromText(SEVEN)) && TextBytes(v, FromText(SEVEN)) && b == k + v;
    SevenBytes(k);
    SevenBytes(v);
  }

  lemma SevenNode(b: seq<byte>)
    requires NodeBytes(b, SortedSet.Scored(SEVEN, -2))
    ensures b == [254, 255, 255, 255] + SEVEN_BYTES
  {
    hide TextBytes, FromText, IntBits, SizeBits;
    SmallBits(1);
    var k: seq<byte> :| TextBytes(k, FromText(SEVEN)) && b == IntBits(-2) + k;
    SevenBytes(k);
  }

  /** What stands before the kind. */
  function SampleExpire(expires: bool): seq<byte> { if expires then [6, 2, 1, 0, 0, 0, 0, 0, 0] else [] }

  lemma SamplePrefix(kind: Kind, expire: Option<nat>)
    requires expire.Some? ==> expire.value == 258
    ensures Prefix(KeyValue(SEVEN, Sample(kind), expire)) == SampleExpire(expire.Some?) + [KindByte(kind)]
  {
    hide SizeBits, IntBits;
    SmallBits(1);
  }

  lemma SampleKey(b: seq<byte>, kind: Kind, expire: Option<nat>)
    requires KeyBytes(b, KeyValue(SEVEN, Sample(kind), expire)) && (expire.Some? ==> expire.value == 258)
    ensures b == SampleExpire(expire.Some?) + ([KindByte(kind)] + (SEVEN_BYTES + SampleTail(kind)))
  {
    hide TextBytes, ValueBytes, FromText, Sample, SampleTail, Prefix, KindByte, SampleExpire;
    var kv := KeyValue(SEVEN, Sample(kind), expire);
    var k: seq<byte>, v: seq<byte> :|
      TextBytes(k, FromText(SEVEN)) && ValueBytes(v, kv.value) && b == Prefix(kv) + (k + v);
    SevenBytes(k);
    SampleValue(v, kind);
    SamplePrefix(kind, expire);
    assert b == SampleExpire(expire.Some?) + [KindByte(kind)] + (SEVEN_BYTES + SampleTail(kind));
  }

  /** The bytes of a dump that holds one of them under the key 7, with the expiry time 258 or none. */
  method SampleDump(kind: Kind, expires: bool) returns (b: seq<byte>)
    ensures b == HEAD + (SampleExpire(expires) + ([KindByte(kind)] + (SEVEN_BYTES + SampleTail(kind))))
  {
    hide Sample, SampleTail, DbsBytes, DbOk, DbSaves, Flat, SampleExpire;
    var expire := if expires then Some(258) else None;
    var db := Db(0, [KeyValue(SEVEN, Sample(kind), expire)]);
    SampleOk(kind, expire);
    var r, bs := Save(Config(false), [db]);
    SampleFile(bs, kind, expire);
    b := r.value;
  }

  lemma SampleFile(bs: seq<seq<byte>>, kind: Kind, expire: Option<nat>)
    requires DbsBytes(bs, [Db(0, [KeyValue(SEVEN, Sample(kind), expire)])]) && (expire.Some? ==> expire.value == 258)
    ensures MAGIC + Flat(bs) ==
      HEAD + (SampleExpire(expire.Some?) + ([KindByte(kind)] + (SEVEN_BYTES + SampleTail(kind))))
  {
    hide KeyBytes, SizeBits, IntBits, Flat, Sized, Sample, SampleTail, SampleExpire;
    SmallBits(0);
    var kv := KeyValue(SEVEN, Sample(kind), expire);
    assert DbBytes(bs[0], Db(0, [kv])) && bs == [bs[0]];
    FlatOne(bs[0]);
    var k: seq<byte>, ks :| KeysBytes(ks, [kv]) && Sized(k, 1, ks) && bs[0] == [SELECT_DB] + (IntBits(0) + k);
    assert KeyBytes(ks[0], kv) && ks == [ks[0]];
    OneElement(k, ks, ks[0]);
    SampleKey(ks[0], kind, expire);
    HeadJoins(ks[0]);
  }

  lemma HeadJoins(b: seq<byte>)
    ensures MAGIC + ([SELECT_DB] + ([0, 0, 0, 0] + (ONE + b))) == HEAD + b
  {
  }

  lemma SampleOk(kind: Kind, expire: Option<nat>)
    requires expire.Some? ==> expire.value == 258
    ensures DbOk(Config(false), Db(0, [KeyValue(SEVEN, Sample(kind), expire)]))
    ensures DbSaves(Config(false), Db(0, [KeyValue(SEVEN, Sample(kind), expire)]))
  {
    var kv := KeyValue(SEVEN, Sample(kind), expire);
    SevenOk();
    if kind == OneZSet { SampleRanks(); }
    assert KeyOk(Config(false), kv) && KeySaves(Config(false), kv);
  }

  lemma SevenOk()
    ensures NameSaves(Config(false), SEVEN)
  {
    assert SEVEN[..0] == [];
  }

  lemma SampleRanks()
    ensures SortedSet.RanksOk([SortedSet.Rank(-2, SEVEN)], ScoresOf([SortedSet.Scored(SEVEN, -2)]))
  {
    var ranks := [SortedSet.Rank(-2, SEVEN)];
    var es := [SortedSet.Scored(SEVEN, -2)];
    assert es[..0] == [] && ScoresOf(es) == map[SEVEN := -2];
    assert ranks[0].name == SEVEN;
  }

  lemma SurvivorsSave(c: Config, dbs: seq<Db>)
    ensures forall i :: 0 <= i < |dbs| && DbSurvives(c, dbs[i]) ==> DbSaves(c, dbs[i])
  {
    hide NameSaves, NameSurvives, Savable, ValueSurvives;
    forall i | 0 <= i < |dbs| && DbSurvives(c, dbs[i]) ensures DbSaves(c, dbs[i]) {
      forall j | 0 <= j < |dbs[i].keys| ensures KeySaves(c, dbs[i].keys[j]) {
        assert KeySurvives(c, dbs[i].keys[j]);
        NameBack(c, dbs[i].keys[j].key);
        SurvivorSaves(c, dbs[i].keys[j].value);
      }
    }
  }

  lemma AllBackWhen(c: Config, dbs: seq<Db>)
    requires forall i :: 0 <= i < |dbs| ==> DbOk(c, dbs[i]) && DbSaves(c, dbs[i])
    ensures forall i :: 0 <= i < |dbs| ==> (Views(dbs)[i] == DbOriginal(dbs[i]) <==> DbSurvives(c, dbs[i]))
    ensures Views(dbs) == Originals(dbs) <==> forall i :: 0 <= i < |dbs| ==> DbSurvives(c, dbs[i])
  {
    hide DbOk, DbView, DbOriginal, DbSaves, DbSurvives;
    forall i | 0 <= i < |dbs| ensures Views(dbs)[i] == DbOriginal(dbs[i]) <==> DbSurvives(c, dbs[i]) {
      DbBackWhen(c, dbs[i]);
    }
    if Views(dbs) == Originals(dbs) {
      forall i | 0 <= i < |dbs| ensures DbSurvives(c, dbs[i]) { assert Originals(dbs)[i] == DbOriginal(dbs[i]); }
    }
  }
}
