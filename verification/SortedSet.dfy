/**
 * The sorted set: an insertion list, a map from member to list node and a multimap from score to
 * member, kept in step. `scores` is the map they all describe.
 *
 * The ordered containers are sequences in key order. An iterator into the member map is named by
 * its member, an iterator into the list by a node number.
 */
module SortedSet {
  import opened Bytes
  import opened Decimal
  import opened TextOrder

  // ---------- the three indexes ----------

  datatype Node = Node(member: Text, score: int)
  datatype Member = Member(name: Text, node: nat)
  datatype Rank = Rank(score: int, name: Text)
  datatype Scored = Scored(name: Text, score: int)

  /** The member map: in strict order, with the node of each member. */
  ghost predicate MembersOk(members: seq<Member>, nodes: map<nat, Node>, scores: map<Text, int>) {
    Sorted(members) && MembersTrue(members, nodes, scores) && forall k <- scores :: HasMember(members, k)
  }

  ghost predicate Sorted(members: seq<Member>) {
    forall i, j :: 0 <= i < j < |members| ==> Less(members[i].name, members[j].name)
  }

  ghost predicate MembersTrue(members: seq<Member>, nodes: map<nat, Node>, scores: map<Text, int>) {
    forall i :: 0 <= i < |members| ==> MemberTrue(members[i], nodes, scores)
  }

  ghost predicate MemberTrue(m: Member, nodes: map<nat, Node>, scores: map<Text, int>) {
    m.name in scores && m.node in nodes && nodes[m.node] == Node(m.name, scores[m.name])
  }

  ghost predicate HasMember(members: seq<Member>, k: Text) { exists i :: 0 <= i < |members| && members[i].name == k }

  /** The list: every node once, each the node of its member. */
  ghost predicate ListOk(order: seq<nat>, members: seq<Member>) {
    && (forall i, j :: 0 <= i < j < |order| ==> order[i] != order[j])
    && (forall i :: 0 <= i < |order| ==> HasNode(members, order[i]))
    && (forall i :: 0 <= i < |members| ==> members[i].node in order)
  }

  ghost predicate HasNode(members: seq<Member>, id: nat) { exists i :: 0 <= i < |members| && members[i].node == id }

  /** The multimap: scores in order, every member once under its score. */
  ghost predicate RanksOk(ranks: seq<Rank>, scores: map<Text, int>) {
    Ascending(ranks) && Distinct(ranks) && RanksTrue(ranks, scores) && forall k <- scores :: HasRank(ranks, k)
  }

  ghost predicate Ascending(ranks: seq<Rank>) {
    forall i, j :: 0 <= i < j < |ranks| ==> ranks[i].score <= ranks[j].score
  }

  ghost predicate Distinct(ranks: seq<Rank>) {
    forall i, j :: 0 <= i < j < |ranks| ==> ranks[i].name != ranks[j].name
  }

  ghost predicate RanksTrue(ranks: seq<Rank>, scores: map<Text, int>) {
    forall i :: 0 <= i < |ranks| ==> ranks[i].name in scores && ranks[i].score == scores[ranks[i].name]
  }

  ghost predicate HasRank(ranks: seq<Rank>, k: Text) { exists i :: 0 <= i < |ranks| && ranks[i].name == k }

  // ---------- searching the multimap ----------

  /** `lower_bound`: the first entry with a score of at least `s`. */
  method LowerBound(ranks: seq<Rank>, s: int) returns (i: nat)
    requires Ascending(ranks)
    ensures i <= |ranks|
    ensures forall k :: 0 <= k < |ranks| ==> (ranks[k].score < s <==> k < i)
  {
    i := 0;
    while i < |ranks| && ranks[i].score < s
      invariant i <= |ranks| && forall k :: 0 <= k < i ==> ranks[k].score < s
    {
      i := i + 1;
    }
  }

  /** `upper_bound`: the first entry with a score above `s`. */
  method UpperBound(ranks: seq<Rank>, s: int) returns (i: nat)
    requires Ascending(ranks)
    ensures i <= |ranks|
    ensures forall k :: 0 <= k < |ranks| ==> (ranks[k].score <= s <==> k < i)
  {
    i := 0;
    while i < |ranks| && ranks[i].score <= s
      invariant i <= |ranks| && forall k :: 0 <= k < i ==> ranks[k].score <= s
    {
      i := i + 1;
    }
  }

  /** The search `while (it->second != pos) it++`: it stops at the member's entry, inside the multimap. */
  method Scan(ranks: seq<Rank>, from: nat, name: Text, ghost scores: map<Text, int>) returns (i: nat)
    requires RanksOk(ranks, scores) && name in scores && from <= |ranks|
    requires forall k :: 0 <= k < from ==> ranks[k].score < scores[name]
    ensures from <= i < |ranks| && ranks[i] == Rank(scores[name], name)
  {
    assert HasRank(ranks, name);
    ghost var j :| 0 <= j < |ranks| && ranks[j].name == name;
    i := from;
    while ranks[i].name != name
      invariant from <= i <= j
      decreases j - i
    {
      i := i + 1;
    }
  }

  // ---------- inserting into and removing from a sequence ----------

  function InsertAt<T>(s: seq<T>, i: nat, x: T): (r: seq<T>)
    requires i <= |s|
    ensures |r| == |s| + 1 && r[i] == x
    ensures forall k {:trigger r[k]} :: 0 <= k < |r| && k != i ==> r[k] == s[if k < i then k else k - 1]
  {
    s[..i] + [x] + s[i..]
  }

  function RemoveAt<T>(s: seq<T>, i: nat): (r: seq<T>)
    requires i < |s|
    ensures |r| == |s| - 1
    ensures forall k {:trigger r[k]} :: 0 <= k < |r| ==> r[k] == s[if k < i then k else k + 1]
  {
    s[..i] + s[i + 1..]
  }

  lemma HasRankInsert(ranks: seq<Rank>, i: nat, x: Rank, k: Text)
    requires i <= |ranks| && (HasRank(ranks, k) || k == x.name)
    ensures HasRank(InsertAt(ranks, i, x), k)
  {
    var r := InsertAt(ranks, i, x);
    hide InsertAt;
    if HasRank(ranks, k) {
      var j :| 0 <= j < |ranks| && ranks[j].name == k;
      assert r[if j < i then j else j + 1].name == k;
    } else {
      assert r[i].name == k;
    }
  }

  lemma HasRankRemove(ranks: seq<Rank>, i: nat, k: Text)
    requires i < |ranks| && HasRank(ranks, k) && k != ranks[i].name
    ensures HasRank(RemoveAt(ranks, i), k)
  {
    var r := RemoveAt(ranks, i);
    hide RemoveAt;
    var j :| 0 <= j < |ranks| && ranks[j].name == k;
    assert r[if j < i then j else j - 1].name == k;
  }

  lemma RanksInsert(ranks: seq<Rank>, scores: map<Text, int>, i: nat, name: Text, s: int)
    requires RanksOk(ranks, scores) && name !in scores && i <= |ranks|
    requires forall k :: 0 <= k < |ranks| ==> (ranks[k].score <= s <==> k < i)
    ensures RanksOk(InsertAt(ranks, i, Rank(s, name)), scores[name := s])
  {
    hide InsertAt, HasRank;
    var r, m := InsertAt(ranks, i, Rank(s, name)), scores[name := s];
    forall k | k in m ensures HasRank(r, k) { HasRankInsert(ranks, i, Rank(s, name), k); }
    assert Ascending(r);
    assert Distinct(r);
    assert RanksTrue(r, m);
  }

  lemma RanksRemove(ranks: seq<Rank>, scores: map<Text, int>, i: nat)
    requires RanksOk(ranks, scores) && i < |ranks|
    ensures RanksOk(RemoveAt(ranks, i), scores - {ranks[i].name})
  {
    hide RemoveAt, HasRank;
    var r, m := RemoveAt(ranks, i), scores - {ranks[i].name};
    forall k | k in m ensures HasRank(r, k) { HasRankRemove(ranks, i, k); }
    assert Ascending(r);
    assert Distinct(r);
    assert RanksTrue(r, m);
  }

  lemma HasMemberInsert(members: seq<Member>, i: nat, x: Member, k: Text)
    requires i <= |members| && (HasMember(members, k) || k == x.name)
    ensures HasMember(InsertAt(members, i, x), k)
  {
    var r := InsertAt(members, i, x);
    hide InsertAt;
    if HasMember(members, k) {
      var j :| 0 <= j < |members| && members[j].name == k;
      assert r[if j < i then j else j + 1].name == k;
    } else {
      assert r[i].name == k;
    }
  }

  lemma HasMemberRemove(members: seq<Member>, i: nat, k: Text)
    requires i < |members| && HasMember(members, k) && k != members[i].name
    ensures HasMember(RemoveAt(members, i), k)
  {
    var r := RemoveAt(members, i);
    hide RemoveAt;
    var j :| 0 <= j < |members| && members[j].name == k;
    assert r[if j < i then j else j - 1].name == k;
  }

  /** Names around a position of the member map. */
  ghost predicate Belongs(members: seq<Member>, i: nat, name: Text) {
    && i <= |members| && (forall k :: 0 <= k < i ==> Less(members[k].name, name))
    && forall k :: i <= k < |members| ==> Less(name, members[k].name)
  }

  lemma MembersInsert(members: seq<Member>, nodes: map<nat, Node>, scores: map<Text, int>, i: nat, name: Text,
                      id: nat, s: int)
    requires MembersOk(members, nodes, scores) && name !in scores && id !in nodes && Belongs(members, i, name)
    ensures MembersOk(InsertAt(members, i, Member(name, id)), nodes[id := Node(name, s)], scores[name := s])
  {
    hide InsertAt, HasMember, Less;
    var x, nodes', scores' := Member(name, id), nodes[id := Node(name, s)], scores[name := s];
    var r := InsertAt(members, i, x);
    forall k | k in scores' ensures HasMember(r, k) { HasMemberInsert(members, i, x, k); }
    assert Sorted(r);
    forall k | 0 <= k < |r| ensures MemberTrue(r[k], nodes', scores') {
      if k != i { assert MemberTrue(members[if k < i then k else k - 1], nodes, scores); }
    }
  }

  lemma MembersRemove(members: seq<Member>, nodes: map<nat, Node>, scores: map<Text, int>, i: nat)
    requires MembersOk(members, nodes, scores) && i < |members|
    ensures MembersOk(RemoveAt(members, i), nodes - {members[i].node}, scores - {members[i].name})
  {
    hide RemoveAt, HasMember;
    var r, nodes', scores' := RemoveAt(members, i), nodes - {members[i].node}, scores - {members[i].name};
    forall k | k in scores' ensures HasMember(r, k) { HasMemberRemove(members, i, k); }
    assert Sorted(r);
    forall k | 0 <= k < |r| ensures MemberTrue(r[k], nodes', scores') {
      var k' := if k < i then k else k + 1;
      assert MemberTrue(members[k'], nodes, scores) && MemberTrue(members[i], nodes, scores);
      NamesDiffer(members, k', i);
    }
  }

  lemma NamesDiffer(members: seq<Member>, i: nat, j: nat)
    requires Sorted(members) && i < |members| && j < |members| && i != j
    ensures members[i].name != members[j].name
  {
    LessTotal(members[i].name, members[j].name);
  }

  lemma MembersUpdate(members: seq<Member>, nodes: map<nat, Node>, scores: map<Text, int>, i: nat, s: int)
    requires MembersOk(members, nodes, scores) && i < |members|
    ensures MembersOk(members, nodes[members[i].node := Node(members[i].name, s)], scores[members[i].name := s])
  {
    hide HasMember;
    var nodes', scores' := nodes[members[i].node := Node(members[i].name, s)], scores[members[i].name := s];
    assert MemberTrue(members[i], nodes, scores);
    forall k | 0 <= k < |members| ensures MemberTrue(members[k], nodes', scores') {
      assert MemberTrue(members[k], nodes, scores);
      if k != i { NamesDiffer(members, k, i); }
    }
  }

  lemma ListInsert(order: seq<nat>, members: seq<Member>, i: nat, x: Member)
    requires ListOk(order, members) && i <= |members| && x.node !in order
    ensures ListOk(order + [x.node], InsertAt(members, i, x))
  {
    hide InsertAt;
    var r, order' := InsertAt(members, i, x), order + [x.node];
    forall k | 0 <= k < |order'| ensures HasNode(r, order'[k]) {
      if k == |order| {
        assert r[i].node == order'[k];
      } else {
        assert HasNode(members, order[k]);
        var j :| 0 <= j < |members| && members[j].node == order[k];
        assert r[if j < i then j else j + 1].node == order'[k];
      }
    }
  }

  lemma HasNodeRemove(members: seq<Member>, i: nat, id: nat)
    requires i < |members| && HasNode(members, id) && id != members[i].node
    ensures HasNode(RemoveAt(members, i), id)
  {
    var r := RemoveAt(members, i);
    hide RemoveAt;
    var j :| 0 <= j < |members| && members[j].node == id;
    assert r[if j < i then j else j - 1].node == id;
  }

  lemma StillListed(order: seq<nat>, p: nat, id: nat)
    requires p < |order| && id in order && id != order[p]
    ensures id in RemoveAt(order, p)
  {
    var r := RemoveAt(order, p);
    hide RemoveAt;
    var q :| 0 <= q < |order| && order[q] == id;
    assert r[if q < p then q else q - 1] == id;
  }

  lemma ListRemove(order: seq<nat>, members: seq<Member>, nodes: map<nat, Node>, scores: map<Text, int>, i: nat, p: nat)
    requires ListOk(order, members) && MembersOk(members, nodes, scores) && i < |members| && p < |order| &&
      order[p] == members[i].node
    ensures ListOk(RemoveAt(order, p), RemoveAt(members, i))
  {
    hide HasMember, HasNode, RemoveAt;
    var r, order' := RemoveAt(members, i), RemoveAt(order, p);
    forall k | 0 <= k < |order'| ensures HasNode(r, order'[k]) {
      HasNodeRemove(members, i, order'[k]);
    }
    forall k | 0 <= k < |r| ensures r[k].node in order' {
      var k' := if k < i then k else k + 1;
      assert MemberTrue(members[k'], nodes, scores) && MemberTrue(members[i], nodes, scores);
      NamesDiffer(members, k', i);
      StillListed(order, p, r[k].node);
    }
  }

  // ---------- order in the list and in the multimap ----------

  /** The members of the list, node by node. */
  ghost predicate Lists(order: seq<nat>, nodes: map<nat, Node>, listing: seq<Text>) {
    |listing| == |order| && forall i :: 0 <= i < |order| ==> order[i] in nodes && nodes[order[i]].member == listing[i]
  }

  lemma ListsInsert(order: seq<nat>, nodes: map<nat, Node>, listing: seq<Text>, id: nat, node: Node)
    requires Lists(order, nodes, listing) && id !in nodes
    ensures Lists(order + [id], nodes[id := node], listing + [node.member])
  {
  }

  lemma ListsRemove(order: seq<nat>, nodes: map<nat, Node>, listing: seq<Text>, p: nat)
    requires Lists(order, nodes, listing) && p < |order|
    requires forall i, j :: 0 <= i < j < |order| ==> order[i] != order[j]
    ensures Lists(RemoveAt(order, p), nodes - {order[p]}, RemoveAt(listing, p))
  {
  }

  lemma ListsAt(order: seq<nat>, nodes: map<nat, Node>, listing: seq<Text>, p: nat)
    requires Lists(order, nodes, listing) && p < |order|
    ensures p < |listing| && order[p] in nodes && listing[p] == nodes[order[p]].member
  {
  }

  lemma ListsUpdate(order: seq<nat>, nodes: map<nat, Node>, listing: seq<Text>, id: nat, node: Node)
    requires Lists(order, nodes, listing) && id in nodes && nodes[id].member == node.member
    ensures Lists(order, nodes[id := node], listing)
  {
  }

  lemma ListDistinct(order: seq<nat>, members: seq<Member>)
    requires ListOk(order, members)
    ensures forall i, j :: 0 <= i < j < |order| ==> order[i] != order[j]
  {
  }

  /** One occurrence of `x` was taken out. */
  ghost predicate Taken<T>(s: seq<T>, x: T, r: seq<T>) { exists j :: 0 <= j < |s| && s[j] == x && r == RemoveAt(s, j) }

  /** `multimap::insert`: after the entries of equal score. */
  ghost predicate Inserted(s: seq<Rank>, x: Rank, r: seq<Rank>) {
    exists j :: 0 <= j <= |s| && r == InsertAt(s, j, x) &&
      forall k :: 0 <= k < |s| ==> (s[k].score <= x.score <==> k < j)
  }

  ghost predicate Moved(s: seq<Rank>, x: Rank, y: Rank, r: seq<Rank>) {
    exists t: seq<Rank> :: Taken(s, x, t) && Inserted(t, y, r)
  }

  /** Consecutive entries of the multimap. */
  ghost predicate SliceAt(ranks: seq<Rank>, a: nat, r: seq<Scored>) {
    a + |r| <= |ranks| && forall i :: 0 <= i < |r| ==> r[i] == Scored(ranks[a + i].name, ranks[a + i].score)
  }

  // ---------- the sorted set ----------

  /** The multimap part of `IncrBy`: the member's entry is erased and inserted under the new score. */
  method MoveRank(ranks: seq<Rank>, name: Text, s: int, s': int, ghost scores: map<Text, int>) returns (r: seq<Rank>)
    requires RanksOk(ranks, scores) && name in scores && s == scores[name]
    ensures RanksOk(r, scores[name := s']) && Moved(ranks, Rank(s, name), Rank(s', name), r)
  {
    hide RanksOk;
    RanksAscend(ranks, scores);
    var from := LowerBound(ranks, s);
    var j := Scan(ranks, from, name, scores);
    RanksRemove(ranks, scores, j);
    r := RemoveAt(ranks, j);
    ghost var without := r;
    RanksAscend(r, scores - {name});
    var at := UpperBound(r, s');
    RanksInsert(r, scores - {name}, at, name, s');
    r := InsertAt(r, at, Rank(s', name));
    assert (scores - {name})[name := s'] == scores[name := s'];
    assert Taken(ranks, Rank(s, name), without) && Inserted(without, Rank(s', name), r);
  }

  /** The entries from `a` to `b`. */
  method CollectRanks(ranks: seq<Rank>, a: nat, b: nat) returns (r: seq<Scored>)
    requires b <= |ranks|
    ensures |r| == if a <= b then b - a else 0
    ensures forall i :: 0 <= i < |r| ==> r[i] == Scored(ranks[a + i].name, ranks[a + i].score)
  {
    r := [];
    var k := a;
    while k < b
      invariant |r| == k - a && (a <= b ==> k <= b) && (a > b ==> k == a)
      invariant forall i :: 0 <= i < |r| ==> r[i] == Scored(ranks[a + i].name, ranks[a + i].score)
    {
      r := r + [Scored(ranks[k].name, ranks[k].score)];
      k := k + 1;
    }
  }

  method CollectMembers(members: seq<Member>, nodes: map<nat, Node>, a: nat, b: nat, ghost scores: map<Text, int>)
    returns (r: seq<Scored>)
    requires MembersTrue(members, nodes, scores) && b <= |members|
    ensures |r| == if a <= b then b - a else 0
    ensures forall i :: 0 <= i < |r| ==>
      members[a + i].name in scores && r[i] == Scored(members[a + i].name, scores[members[a + i].name])
  {
    r := [];
    var k := a;
    while k < b
      invariant |r| == k - a && (a <= b ==> k <= b) && (a > b ==> k == a)
      invariant forall i :: 0 <= i < |r| ==>
        members[a + i].name in scores && r[i] == Scored(members[a + i].name, scores[members[a + i].name])
    {
      assert MemberTrue(members[k], nodes, scores);
      r := r + [Scored(members[k].name, nodes[members[k].node].score)];
      k := k + 1;
    }
  }

  /** The members and scores of nodes. */
  function Walked(order: seq<nat>, nodes: map<nat, Node>): (es: seq<Scored>)
    requires forall i :: 0 <= i < |order| ==> order[i] in nodes
    ensures |es| == |order|
    ensures forall i :: 0 <= i < |es| ==> es[i] == Scored(nodes[order[i]].member, nodes[order[i]].score)
  {
    seq(|order|, i requires 0 <= i < |order| => Scored(nodes[order[i]].member, nodes[order[i]].score))
  }

  class ZSet {
    var order: seq<nat>         // sequence_list_, as node numbers
    var nodes: map<nat, Node>   // the nodes of the list
    var members: seq<Member>    // member_map_
    var ranks: seq<Rank>        // rank_map_
    var next: nat               // the next unused node number
    ghost var scores: map<Text, int>
    ghost var listing: seq<Text> // the members in the order of the list

    ghost predicate Valid()
      reads this
    {
      && MembersOk(members, nodes, scores) && ListOk(order, members) && RanksOk(ranks, scores)
      && Lists(order, nodes, listing) && forall id <- nodes :: id < next
    }

    constructor ()
      ensures Valid() && scores == map[] && listing == [] && ranks == []
    {
      order, nodes, members, ranks, next, scores, listing := [], map[], [], [], 0, map[], [];
    }

    /** The list with its scores. */
    ghost function Entries(): (es: seq<Scored>)
      requires Valid()
      reads this
    {
      Walked(order, nodes)
    }

    /** The walk through the list. */
    method Walk() returns (es: seq<Scored>)
      requires Valid()
      ensures es == Entries()
    {
      hide MembersOk, ListOk, RanksOk;
      es := [];
      for i := 0 to |order|
        invariant es == Walked(order[..i], nodes)
      {
        es := es + [Scored(nodes[order[i]].member, nodes[order[i]].score)];
      }
      assert order[..|order|] == order;
    }

    /** `member_map_.find`, or where the member would be inserted. */
    method FindMember(name: Text) returns (found: bool, i: nat)
      requires Valid()
      ensures found <==> name in scores
      ensures if found then i < |members| && members[i].name == name else Belongs(members, i, name)
    {
      hide ListOk, RanksOk, Less;
      i := 0;
      while i < |members| && Less(members[i].name, name)
        invariant 0 <= i <= |members| && forall k :: 0 <= k < i ==> Less(members[k].name, name)
      {
        i := i + 1;
      }
      found := i < |members| && members[i].name == name;
      NotElsewhere(members, nodes, scores, i, name);
    }

    /** `Add`: only a new member is added, at the end of the list and after the members of equal score. */
    method Add(score: int, name: Text) returns (added: bool)
      requires Valid()
      modifies this
      ensures Valid() && (added <==> name !in old(scores))
      ensures scores == if added then old(scores)[name := score] else old(scores)
      ensures listing == if added then old(listing) + [name] else old(listing)
      ensures if added then Inserted(old(ranks), Rank(score, name), ranks) else ranks == old(ranks)
    {
      hide MembersOk, ListOk, RanksOk, Belongs;
      var found, i := FindMember(name);
      if found {
        return false;
      }
      var id := next;
      NewNode(order, members, nodes, scores, id);
      ListsInsert(order, nodes, listing, id, Node(name, score));
      MembersInsert(members, nodes, scores, i, name, id, score);
      BelongsBound(members, i, name);
      ListInsert(order, members, i, Member(name, id));
      RanksAscend(ranks, scores);
      var j := UpperBound(ranks, score);
      RanksInsert(ranks, scores, j, name, score);
      members := InsertAt(members, i, Member(name, id));
      order, nodes, next := order + [id], nodes[id := Node(name, score)], next + 1;
      ranks := InsertAt(ranks, j, Rank(score, name));
      scores, listing := scores[name := score], listing + [name];
      return true;
    }

    /** The position of a node in the list. */
    method FindNode(id: nat) returns (p: nat)
      requires exists i :: 0 <= i < |order| && order[i] == id
      ensures p < |order| && order[p] == id
    {
      p := 0;
      while order[p] != id
        invariant p < |order| && exists i :: p <= i < |order| && order[i] == id
        decreases |order| - p
      {
        p := p + 1;
      }
    }

    /** `Rem`: the member is removed only when the score given is its score. */
    method Rem(score: int, name: Text) returns (removed: bool)
      requires Valid() && (name in scores && scores[name] == score ==> score > INT_MIN)
      modifies this
      ensures Valid() && (removed <==> name in old(scores) && old(scores)[name] == score)
      ensures scores == if removed then old(scores) - {name} else old(scores)
      ensures if removed then Taken(old(listing), name, listing) else listing == old(listing)
      ensures if removed then Taken(old(ranks), Rank(score, name), ranks) else ranks == old(ranks)
    {
      hide MembersOk, ListOk, RanksOk, Lists, Belongs;
      var found, i := FindMember(name);
      if !found {
        return false;
      }
      MemberFacts(order, members, nodes, scores, i);
      if nodes[members[i].node].score != score {
        return false;
      }
      var p := FindNode(members[i].node);
      RanksAscend(ranks, scores);
      var from := UpperBound(ranks, score - 1);
      var j := Scan(ranks, from, name, scores);
      MembersRemove(members, nodes, scores, i);
      ListRemove(order, members, nodes, scores, i, p);
      RanksRemove(ranks, scores, j);
      ListDistinct(order, members);
      ListsRemove(order, nodes, listing, p);
      ListsAt(order, nodes, listing, p);
      listing := RemoveAt(listing, p);
      order, nodes := RemoveAt(order, p), nodes - {members[i].node};
      ranks := RemoveAt(ranks, j);
      members := RemoveAt(members, i);
      scores := scores - {name};
      return true;
    }

    /** `IncrBy`: the new score, or none when there is no such member; the list keeps its order. */
    method IncrBy(delta: int, name: Text) returns (score: Option<int>)
      requires Valid() && (name in scores ==> INT_MIN <= scores[name] + delta <= INT_MAX)
      modifies this
      ensures Valid()
      ensures score == if name in old(scores) then Some(old(scores)[name] + delta) else None
      ensures scores == if name in old(scores) then old(scores)[name := old(scores)[name] + delta] else old(scores)
      ensures listing == old(listing)
      ensures if name in old(scores)
              then Moved(old(ranks), Rank(old(scores)[name], name), Rank(old(scores)[name] + delta, name), ranks)
              else ranks == old(ranks)
    {
      hide MembersOk, ListOk, RanksOk, Moved, Lists, Belongs;
      var found, i := FindMember(name);
      if !found {
        return None;
      }
      MemberFacts(order, members, nodes, scores, i);
      var s := nodes[members[i].node].score;
      ranks := MoveRank(ranks, name, s, s + delta, scores);
      MembersUpdate(members, nodes, scores, i, s + delta);
      ListsUpdate(order, nodes, listing, members[i].node, Node(name, s + delta));
      nodes := nodes[members[i].node := Node(name, s + delta)];
      scores := scores[name := s + delta];
      return Some(s + delta);
    }

    /** `Score`. */
    method Score(name: Text) returns (score: Option<int>)
      requires Valid()
      ensures score == if name in scores then Some(scores[name]) else None
    {
      hide MembersOk, ListOk, RanksOk;
      var found, i := FindMember(name);
      if !found {
        return None;
      }
      MemberFacts(order, members, nodes, scores, i);
      return Some(nodes[members[i].node].score);
    }

    /** `RangeByScore`: exactly the members with a score in the range, each once, in order of score. */
    method RangeByScore(low: int, high: int) returns (r: seq<Scored>)
      requires Valid()
      ensures forall i, j :: 0 <= i < j < |r| ==> r[i].score <= r[j].score && r[i].name != r[j].name
      ensures forall i :: 0 <= i < |r| ==>
        r[i].name in scores && r[i].score == scores[r[i].name] && low <= r[i].score <= high
      ensures forall k <- scores :: low <= scores[k] <= high ==> Scored(k, scores[k]) in r
      ensures exists a: nat :: SliceAt(ranks, a, r)
    {
      hide MembersOk, ListOk;
      r := [];
      if low > high {
        assert SliceAt(ranks, 0, r);
        return;
      }
      var a := LowerBound(ranks, low);
      var b := UpperBound(ranks, high);
      r := CollectRanks(ranks, a, b);
      assert SliceAt(ranks, if a <= b then a else 0, r);
      forall k | k in scores && low <= scores[k] <= high ensures Scored(k, scores[k]) in r {
        assert HasRank(ranks, k);
        var j :| 0 <= j < |ranks| && ranks[j].name == k;
        assert ranks[j].score == scores[k];
        assert r[j - a] == Scored(k, scores[k]);
      }
    }

    /** `Count`: how many members have a score in the range. */
    method Count(low: int, high: int) returns (n: nat)
      requires Valid()
      ensures n == |set k | k in scores && low <= scores[k] <= high|
    {
      hide MembersOk, ListOk;
      if low > high {
        assert (set k | k in scores && low <= scores[k] <= high) == {};
        return 0;
      }
      var a := LowerBound(ranks, low);
      var b := UpperBound(ranks, high);
      if b < |ranks| { assert ranks[b].score > high; }
      CountNames(ranks, scores, low, high, a, b);
      n := b - a;
    }

    /** `RangeByLex`: exactly the members between two names, in order, with their scores. */
    method RangeByLex(low: Text, high: Text) returns (r: seq<Scored>)
      requires Valid()
      ensures forall i, j :: 0 <= i < j < |r| ==> Precedes(r[i].name, r[j].name)
      ensures forall i :: 0 <= i < |r| ==>
        && r[i].name in scores && r[i].score == scores[r[i].name]
        && !Precedes(r[i].name, low) && !Precedes(high, r[i].name)
      ensures forall k <- scores :: !Precedes(k, low) && !Precedes(high, k) ==> Scored(k, scores[k]) in r
    {
      hide ListOk, RanksOk, Less, Precedes;
      LessAlwaysIs();
      r := [];
      if Less(high, low) {
        forall k | k in scores ensures Less(k, low) || Less(high, k) { Outside(low, high, k); }
        return;
      }
      var a := LowerName(members, low);
      var b := UpperName(members, high);
      r := CollectMembers(members, nodes, a, b, scores);
      forall k | k in scores && !Less(k, low) && !Less(high, k) ensures Scored(k, scores[k]) in r {
        assert HasMember(members, k);
        var j :| 0 <= j < |members| && members[j].name == k;
        assert r[j - a] == Scored(k, scores[k]);
      }
    }
  }

  /** `member_map_.lower_bound` and `upper_bound`. */
  method LowerName(members: seq<Member>, name: Text) returns (i: nat)
    requires Sorted(members)
    ensures i <= |members| && forall k :: 0 <= k < |members| ==> (Less(members[k].name, name) <==> k < i)
  {
    hide Less;
    i := 0;
    while i < |members| && Less(members[i].name, name)
      invariant i <= |members| && forall k :: 0 <= k < i ==> Less(members[k].name, name)
    {
      i := i + 1;
    }
    forall k | i <= k < |members| ensures !Less(members[k].name, name) {
      if k > i && Less(members[k].name, name) { LessTransitive(members[i].name, members[k].name, name); }
    }
  }

  method UpperName(members: seq<Member>, name: Text) returns (i: nat)
    requires Sorted(members)
    ensures i <= |members| && forall k :: 0 <= k < |members| ==> (Less(name, members[k].name) <==> k >= i)
  {
    hide Less;
    i := 0;
    while i < |members| && !Less(name, members[i].name)
      invariant i <= |members| && forall k :: 0 <= k < i ==> !Less(name, members[k].name)
    {
      i := i + 1;
    }
    forall k | i <= k < |members| ensures Less(name, members[k].name) {
      if k > i { LessTransitive(name, members[i].name, members[k].name); }
    }
  }

  lemma Outside(low: Text, high: Text, k: Text)
    requires Less(high, low)
    ensures Less(k, low) || Less(high, k)
  {
    LessTotal(k, high);
    if Less(k, high) { LessTransitive(k, high, low); }
  }

  /** After the first name that is not smaller, `name` does not occur. */
  lemma NotElsewhere(members: seq<Member>, nodes: map<nat, Node>, scores: map<Text, int>, i: nat, name: Text)
    requires MembersOk(members, nodes, scores) && i <= |members|
    requires forall k :: 0 <= k < i ==> Less(members[k].name, name)
    requires i < |members| ==> !Less(members[i].name, name)
    ensures name in scores <==> i < |members| && members[i].name == name
    ensures name !in scores ==> Belongs(members, i, name)
  {
    hide Less;
    if i < |members| && members[i].name == name { assert MemberTrue(members[i], nodes, scores); }
    forall k | 0 <= k < i ensures members[k].name != name { LessTotal(members[k].name, name); }
    forall k | i < k < |members|
      ensures members[k].name != name && (members[i].name == name || Less(name, members[k].name))
    {
      LessTotal(members[i].name, name);
      if members[i].name == name { LessTotal(members[k].name, name); }
      else { LessTransitive(name, members[i].name, members[k].name); LessTotal(members[k].name, name); }
    }
    if i < |members| { LessTotal(members[i].name, name); }
    if name in scores { assert HasMember(members, name); }
  }

  lemma NewNode(order: seq<nat>, members: seq<Member>, nodes: map<nat, Node>, scores: map<Text, int>, id: nat)
    requires MembersOk(members, nodes, scores) && ListOk(order, members) && forall k <- nodes :: k < id
    ensures id !in order && id !in nodes
  {
    forall p | 0 <= p < |order| ensures order[p] != id {
      assert HasNode(members, order[p]);
      var i :| 0 <= i < |members| && members[i].node == order[p];
      assert MemberTrue(members[i], nodes, scores);
    }
  }

  lemma BelongsBound(members: seq<Member>, i: nat, name: Text)
    requires Belongs(members, i, name)
    ensures i <= |members|
  {
  }

  lemma RanksAscend(ranks: seq<Rank>, scores: map<Text, int>)
    requires RanksOk(ranks, scores)
    ensures Ascending(ranks)
  {
  }

  lemma MemberFacts(order: seq<nat>, members: seq<Member>, nodes: map<nat, Node>, scores: map<Text, int>, i: nat)
    requires MembersOk(members, nodes, scores) && ListOk(order, members) && i < |members|
    ensures members[i].name in scores && members[i].node in nodes
    ensures nodes[members[i].node] == Node(members[i].name, scores[members[i].name])
    ensures exists p :: 0 <= p < |order| && order[p] == members[i].node
  {
    assert MemberTrue(members[i], nodes, scores);
    assert members[i].node in order;
  }

  function Names(ranks: seq<Rank>): set<Text> { set i | 0 <= i < |ranks| :: ranks[i].name }

  lemma {:induction false} NamesCount(ranks: seq<Rank>)
    requires Distinct(ranks)
    ensures |Names(ranks)| == |ranks|
  {
    if ranks == [] {
      assert Names(ranks) == {};
    } else {
      var n := |ranks| - 1;
      NamesCount(ranks[..n]);
      assert Names(ranks) == Names(ranks[..n]) + {ranks[n].name};
    }
  }

  lemma CountNames(ranks: seq<Rank>, scores: map<Text, int>, low: int, high: int, a: nat, b: nat)
    requires RanksOk(ranks, scores) && a <= b <= |ranks|
    requires forall k :: 0 <= k < |ranks| ==> (ranks[k].score < low <==> k < a)
    requires forall k :: 0 <= k < |ranks| ==> (ranks[k].score <= high <==> k < b)
    ensures b - a == |set k | k in scores && low <= scores[k] <= high|
  {
    var mid := ranks[a..b];
    assert forall i :: 0 <= i < |mid| ==> mid[i] == ranks[a + i];
    NamesCount(mid);
    var inside := set k | k in scores && low <= scores[k] <= high;
    forall k | k in inside ensures k in Names(mid) {
      assert HasRank(ranks, k);
      var j :| 0 <= j < |ranks| && ranks[j].name == k;
      assert mid[j - a].name == k;
    }
    assert Names(mid) == inside;
  }
}
