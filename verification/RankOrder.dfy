/** The order of the score index: what it is after members are added one by one, and when it is that. */
module RankOrder {
  import opened TextOrder
  import opened SortedSet

  ghost predicate DistinctNames(es: seq<Scored>) { forall i, j :: 0 <= i < j < |es| ==> es[i].name != es[j].name }

  /** The scores a list describes. */
  ghost function ScoresOf(es: seq<Scored>): map<Text, int> {
    if es == [] then map[] else var e := es[|es| - 1]; ScoresOf(es[..|es| - 1])[e.name := e.score]
  }

  ghost predicate Named(es: seq<Scored>, k: Text) { exists i :: 0 <= i < |es| && es[i].name == k }

  lemma {:induction false} ScoresOfFacts(es: seq<Scored>)
    requires DistinctNames(es)
    ensures forall i :: 0 <= i < |es| ==> es[i].name in ScoresOf(es) && ScoresOf(es)[es[i].name] == es[i].score
    ensures forall k <- ScoresOf(es) :: Named(es, k)
  {
    if es != [] {
      var n := |es| - 1;
      ScoresOfFacts(es[..n]);
      forall k | k in ScoresOf(es) ensures Named(es, k) {
        if k == es[n].name {
          assert es[n].name == k;
        } else {
          assert Named(es[..n], k);
          var i :| 0 <= i < n && es[..n][i].name == k;
          assert es[i].name == k;
        }
      }
      forall i | 0 <= i < |es| ensures es[i].name in ScoresOf(es) && ScoresOf(es)[es[i].name] == es[i].score {
        if i < n { assert es[..n][i] == es[i]; }
      }
    }
  }

  /** The list of a sorted set describes its scores. */
  lemma EntriesFacts(z: ZSet)
    requires z.Valid()
    ensures var es := z.Entries();
      && DistinctNames(es) && ScoresOf(es) == z.scores
      && |es| == |z.listing| && forall i :: 0 <= i < |es| ==> es[i].name == z.listing[i]
  {
    var es := z.Entries();
    EntriesTrue(z);
    EntriesAll(z);
    hide ZSet.Valid, ZSet.Entries;
    ScoresOfFacts(es);
    hide ScoresOf;
    forall k | k in z.scores ensures k in ScoresOf(es) {
      assert Named(es, k);
    }
    forall k | k in ScoresOf(es) ensures k in z.scores && z.scores[k] == ScoresOf(es)[k] {
      assert Named(es, k);
    }
  }

  lemma EntriesTrue(z: ZSet)
    requires z.Valid()
    ensures var es := z.Entries();
      && |es| == |z.listing|
      && (forall i :: 0 <= i < |es| ==> es[i].name == z.listing[i])
      && (forall i :: 0 <= i < |es| ==> es[i].name in z.scores && z.scores[es[i].name] == es[i].score)
      && DistinctNames(es)
  {
    var es := z.Entries();
    hide RanksOk, Less, MembersOk;
    forall i | 0 <= i < |es| ensures es[i].name in z.scores && z.scores[es[i].name] == es[i].score {
      var k := NodeMember(z, i);
    }
    forall i, j | 0 <= i < j < |es| ensures es[i].name != es[j].name {
      var k := NodeMember(z, i);
      var l := NodeMember(z, j);
      SameName(z, k, l);
    }
  }

  lemma SameName(z: ZSet, k: nat, l: nat)
    requires z.Valid() && k < |z.members| && l < |z.members|
    ensures z.members[k].name == z.members[l].name ==> k == l
  {
    hide RanksOk, Less, ListOk, Lists;
    if k < l { LessTotal(z.members[k].name, z.members[l].name); }
    if l < k { LessTotal(z.members[l].name, z.members[k].name); }
  }

  lemma EntriesAll(z: ZSet)
    requires z.Valid()
    ensures forall k <- z.scores :: Named(z.Entries(), k)
  {
    hide RanksOk, Less;
    forall k | k in z.scores ensures Named(z.Entries(), k) {
      assert HasMember(z.members, k);
      var i :| 0 <= i < |z.members| && z.members[i].name == k;
      MemberFacts(z.order, z.members, z.nodes, z.scores, i);
      var p :| 0 <= p < |z.order| && z.order[p] == z.members[i].node;
      assert z.Entries()[p].name == k;
    }
  }

  lemma NodeMember(z: ZSet, i: nat) returns (k: nat)
    requires z.Valid() && i < |z.order|
    ensures k < |z.members| && z.members[k].node == z.order[i]
    ensures z.members[k].name in z.scores
    ensures z.nodes[z.order[i]] == Node(z.members[k].name, z.scores[z.members[k].name])
  {
    hide RanksOk, Sorted, Lists;
    assert HasNode(z.members, z.order[i]);
    k :| 0 <= k < |z.members| && z.members[k].node == z.order[i];
    assert MemberTrue(z.members[k], z.nodes, z.scores);
  }

  // ---------- the index built by additions ----------

  /** Behind the entries of equal score. */
  function Insert(s: seq<Rank>, x: Rank): seq<Rank> {
    if s == [] || s[|s| - 1].score <= x.score then s + [x] else Insert(s[..|s| - 1], x) + [s[|s| - 1]]
  }

  lemma {:induction false} InsertIs(s: seq<Rank>, x: Rank, j: nat)
    requires j <= |s| && forall k :: 0 <= k < |s| ==> (s[k].score <= x.score <==> k < j)
    ensures Insert(s, x) == InsertAt(s, j, x)
  {
    if j < |s| {
      var t := s[..|s| - 1];
      InsertIs(t, x, j);
      assert InsertAt(s, j, x) == InsertAt(t, j, x) + [s[|s| - 1]];
    } else if s != [] {
      assert s[|s| - 1].score <= x.score;
    }
  }

  lemma InsertedIs(s: seq<Rank>, x: Rank, r: seq<Rank>)
    requires Inserted(s, x, r)
    ensures r == Insert(s, x)
  {
    var j :| 0 <= j <= |s| && r == InsertAt(s, j, x) && forall k :: 0 <= k < |s| ==> (s[k].score <= x.score <==> k < j);
    InsertIs(s, x, j);
  }

  /** The index after the entries were added in this order. */
  function Ranked(es: seq<Scored>): seq<Rank> {
    if es == [] then [] else var e := es[|es| - 1]; Insert(Ranked(es[..|es| - 1]), Rank(e.score, e.name))
  }

  /** Members of equal score stand in the order of the list. */
  ghost predicate InListOrder(ranks: seq<Rank>, es: seq<Scored>) {
    forall i, j, p, q | 0 <= i < j < |ranks| && 0 <= p < |es| && 0 <= q < |es| ::
      ranks[i].score == ranks[j].score && es[p].name == ranks[i].name && es[q].name == ranks[j].name ==> p < q
  }

  /** Where an entry goes. */
  lemma {:induction false} Place(s: seq<Rank>, x: Rank) returns (j: nat)
    requires Ascending(s)
    ensures j <= |s| && forall k :: 0 <= k < |s| ==> (s[k].score <= x.score <==> k < j)
  {
    if s == [] || s[|s| - 1].score <= x.score {
      j := |s|;
    } else {
      j := Place(s[..|s| - 1], x);
    }
  }

  lemma ScoresFront(es: seq<Scored>)
    requires es != [] && DistinctNames(es)
    ensures var (t, e) := (es[..|es| - 1], es[|es| - 1]);
      && DistinctNames(t) && e.name !in ScoresOf(t) && ScoresOf(es) == ScoresOf(t)[e.name := e.score]
      && ScoresOf(t) == ScoresOf(es) - {e.name}
  {
    var (t, e) := (es[..|es| - 1], es[|es| - 1]);
    assert ScoresOf(es) == ScoresOf(t)[e.name := e.score];
    NotInFront(es);
    hide ScoresOf, DistinctNames;
    assert ScoresOf(t)[e.name := e.score] - {e.name} == ScoresOf(t);
  }

  lemma NotInFront(es: seq<Scored>)
    requires es != [] && DistinctNames(es)
    ensures DistinctNames(es[..|es| - 1]) && es[|es| - 1].name !in ScoresOf(es[..|es| - 1])
  {
    hide ScoresOf;
    var (t, e) := (es[..|es| - 1], es[|es| - 1]);
    ScoresOfFacts(t);
    forall i | 0 <= i < |t| ensures t[i].name != e.name {
      assert t[i] == es[i];
    }
    assert e.name in ScoresOf(t) ==> Named(t, e.name);
  }

  lemma {:induction false} RankedOk(es: seq<Scored>)
    requires DistinctNames(es)
    ensures RanksOk(Ranked(es), ScoresOf(es)) && InListOrder(Ranked(es), es)
  {
    if es != [] {
      var (t, e) := (es[..|es| - 1], es[|es| - 1]);
      ScoresFront(es);
      RankedOk(t);
      var s, x := Ranked(t), Rank(e.score, e.name);
      var j := Place(s, x);
      InsertIs(s, x, j);
      RanksInsert(s, ScoresOf(t), j, e.name, e.score);
      InsertKeepsOrder(s, es, j);
    }
  }

  lemma InsertKeepsOrder(s: seq<Rank>, es: seq<Scored>, j: nat)
    requires es != [] && DistinctNames(es) && j <= |s|
    requires var (t, e) := (es[..|es| - 1], es[|es| - 1]);
      InListOrder(s, t) && forall k :: 0 <= k < |s| ==> s[k].name != e.name && (s[k].score <= e.score <==> k < j)
    ensures var e := es[|es| - 1]; InListOrder(InsertAt(s, j, Rank(e.score, e.name)), es)
  {
    var n := |es| - 1;
    var (t, e) := (es[..n], es[n]);
    var r := InsertAt(s, j, Rank(e.score, e.name));
    forall a, b, p, q |
      && 0 <= a < b < |r| && r[a].score == r[b].score
      && 0 <= p < |es| && 0 <= q < |es| && es[p].name == r[a].name && es[q].name == r[b].name
      ensures p < q
    {
      var a', b' := if a < j then a else a - 1, if b < j then b else b - 1;
      assert a != j ==> r[a] == s[a'];
      assert b != j ==> r[b] == s[b'];
      assert p < n ==> es[p] == t[p];
      assert q < n ==> es[q] == t[q];
    }
  }

  lemma {:induction false} OnlyRanked(es: seq<Scored>, ranks: seq<Rank>)
    requires DistinctNames(es) && RanksOk(ranks, ScoresOf(es)) && InListOrder(ranks, es)
    ensures ranks == Ranked(es)
  {
    hide ScoresOf, DistinctNames, InListOrder, RanksOk, Insert;
    if es == [] {
      NoScores();
      NoRanks(ranks, ScoresOf(es));
    } else {
      var j := LastRank(es, ranks);
      var t, e, s := es[..|es| - 1], es[|es| - 1], RemoveAt(ranks, j);
      ScoresFront(es);
      RanksRemove(ranks, ScoresOf(es), j);
      RemoveKeepsOrder(ranks, es, j);
      OnlyRanked(t, s);
      LastOfEquals(es, ranks, j);
      InsertIs(s, ranks[j], j);
      assert InsertAt(s, j, ranks[j]) == ranks;
      assert ranks[j] == Rank(e.score, e.name);
    }
  }

  lemma NoRanks(ranks: seq<Rank>, scores: map<Text, int>)
    requires RanksOk(ranks, scores)
    ensures scores == map[] ==> ranks == []
  {
    if ranks != [] { assert ranks[0].name in scores; }
  }

  lemma NoScores()
    ensures ScoresOf([]) == map[]
  {
  }

  lemma LastRank(es: seq<Scored>, ranks: seq<Rank>) returns (j: nat)
    requires es != [] && RanksOk(ranks, ScoresOf(es))
    ensures j < |ranks| && ranks[j].name == es[|es| - 1].name
    ensures ranks[j].name in ScoresOf(es) && ranks[j].score == ScoresOf(es)[ranks[j].name]
  {
    assert es[|es| - 1].name in ScoresOf(es);
    assert HasRank(ranks, es[|es| - 1].name);
    j :| 0 <= j < |ranks| && ranks[j].name == es[|es| - 1].name;
  }

  lemma RemoveKeepsOrder(ranks: seq<Rank>, es: seq<Scored>, j: nat)
    requires es != [] && InListOrder(ranks, es) && j < |ranks|
    ensures InListOrder(RemoveAt(ranks, j), es[..|es| - 1])
  {
    var s, t := RemoveAt(ranks, j), es[..|es| - 1];
    forall a, b, p, q |
      && 0 <= a < b < |s| && s[a].score == s[b].score
      && 0 <= p < |t| && 0 <= q < |t| && t[p].name == s[a].name && t[q].name == s[b].name
      ensures p < q
    {
      var a', b' := if a < j then a else a + 1, if b < j then b else b + 1;
      assert s[a] == ranks[a'] && s[b] == ranks[b'] && t[p] == es[p] && t[q] == es[q];
    }
  }

  /** The member added last stands behind those of its score. */
  lemma LastOfEquals(es: seq<Scored>, ranks: seq<Rank>, j: nat)
    requires es != [] && DistinctNames(es) && RanksOk(ranks, ScoresOf(es)) && InListOrder(ranks, es)
    requires j < |ranks| && ranks[j].name == es[|es| - 1].name
    ensures ranks[j].score == es[|es| - 1].score
    ensures var s := RemoveAt(ranks, j); forall k :: 0 <= k < |s| ==> (s[k].score <= ranks[j].score <==> k < j)
  {
    var s, n := RemoveAt(ranks, j), |es| - 1;
    ScoresOfFacts(es);
    forall k | 0 <= k < |s| ensures s[k].score <= ranks[j].score <==> k < j {
      if k >= j {
        assert s[k] == ranks[k + 1];
        assert Named(es, ranks[k + 1].name);
        var q :| 0 <= q < |es| && es[q].name == ranks[k + 1].name;
        assert es[n].name == ranks[j].name;
      } else {
        assert s[k] == ranks[k];
      }
    }
  }

  /** The score index is the one additions build exactly when members of equal score stand in the order of the list. */
  lemma RankedWhen(es: seq<Scored>, ranks: seq<Rank>)
    requires DistinctNames(es) && RanksOk(ranks, ScoresOf(es))
    ensures ranks == Ranked(es) <==> InListOrder(ranks, es)
  {
    RankedOk(es);
    if InListOrder(ranks, es) { OnlyRanked(es, ranks); }
  }
}
