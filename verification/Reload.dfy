/**
 * What loading makes of names: a name that is taken for an integer comes back as that integer's text, so
 * two names can become one; tables and sorted sets keep the first of them.
 */
module Reload {
  import opened Decimal
  import opened TextOrder
  import opened Strings
  import opened RdbText
  import opened RankOrder
  import SortedSet

  type Scored = SortedSet.Scored

  /** A name after saving and loading. */
  function Back(t: Text): Text { Restored(FromText(t)).data }

  /** Loading once more changes nothing. */
  lemma BackTwice(t: Text)
    ensures Back(Back(t)) == Back(t)
    ensures Restored(FromText(t)) == FromText(Back(t))
  {
    if IntegerShaped(t) { StoiToText(Stoi(t)); }
  }

  function BackAll(ts: seq<Text>): (r: seq<Text>)
    ensures |r| == |ts| && forall i :: 0 <= i < |ts| ==> r[i] == Back(ts[i])
  {
    seq(|ts|, i requires 0 <= i < |ts| => Back(ts[i]))
  }

  ghost predicate AllBack(ts: seq<Text>) { forall i :: 0 <= i < |ts| ==> Back(ts[i]) == ts[i] }

  ghost function Elements(ts: seq<Text>): set<Text> { set t | t in ts }

  /** A list comes back exactly when all its items do, and so does a set. */
  lemma BackWhenAll(ts: seq<Text>)
    ensures BackAll(ts) == ts <==> AllBack(ts)
    ensures Elements(BackAll(ts)) == Elements(ts) <==> AllBack(ts)
  {
    hide Back;
    if AllBack(ts) {
      assert BackAll(ts) == ts;
    } else {
      var i :| 0 <= i < |ts| && Back(ts[i]) != ts[i];
      if Elements(BackAll(ts)) == Elements(ts) {
        assert ts[i] in Elements(BackAll(ts));
        var j :| 0 <= j < |ts| && BackAll(ts)[j] == ts[i];
        BackTwice(ts[j]);
        assert false;
      }
    }
  }

  // ---------- tables ----------

  /** A table entry: what stands under the key, and what it is after loading. */
  datatype Slot<V> = Slot(key: Text, was: V, now: V)

  ghost predicate DistinctKeys<V>(slots: seq<Slot<V>>) {
    forall i, j :: 0 <= i < j < |slots| ==> slots[i].key != slots[j].key
  }

  /** The table. */
  ghost function Was<V>(slots: seq<Slot<V>>): map<Text, V> {
    if slots == [] then map[]
    else var e := slots[|slots| - 1]; Was(slots[..|slots| - 1])[e.key := e.was]
  }

  /** The table after loading: an entry is inserted only under a new key. */
  ghost function Now<V>(slots: seq<Slot<V>>): map<Text, V> {
    if slots == [] then map[]
    else
      var (m, e) := (Now(slots[..|slots| - 1]), slots[|slots| - 1]);
      if Back(e.key) in m then m else m[Back(e.key) := e.now]
  }

  lemma NowNext<V>(slots: seq<Slot<V>>, i: nat)
    requires i < |slots|
    ensures var (m, e) := (Now(slots[..i]), slots[i]);
      Now(slots[..i + 1]) == if Back(e.key) in m then m else m[Back(e.key) := e.now]
  {
    assert slots[..i + 1][..i] == slots[..i];
  }

  ghost predicate Keyed<V>(slots: seq<Slot<V>>, k: Text) { exists i :: 0 <= i < |slots| && slots[i].key == k }

  lemma {:induction false} WasFacts<V>(slots: seq<Slot<V>>)
    requires DistinctKeys(slots)
    ensures forall k <- Was(slots) :: Keyed(slots, k)
    ensures forall i :: 0 <= i < |slots| ==> slots[i].key in Was(slots) && Was(slots)[slots[i].key] == slots[i].was
  {
    if slots != [] {
      var n := |slots| - 1;
      WasFacts(slots[..n]);
      forall k | k in Was(slots) ensures Keyed(slots, k) {
        if k == slots[n].key {
          assert slots[n].key == k;
        } else {
          assert Keyed(slots[..n], k);
          var i :| 0 <= i < n && slots[..n][i].key == k;
          assert slots[i].key == k;
        }
      }
      forall i | 0 <= i < |slots| ensures slots[i].key in Was(slots) && Was(slots)[slots[i].key] == slots[i].was {
        if i < n { assert slots[..n][i] == slots[i]; }
      }
    }
  }

  ghost predicate BackKeyed<V>(slots: seq<Slot<V>>, k: Text) { exists i :: 0 <= i < |slots| && Back(slots[i].key) == k }

  lemma {:induction false} NowKeys<V>(slots: seq<Slot<V>>)
    ensures forall k <- Now(slots) :: BackKeyed(slots, k)
  {
    if slots != [] {
      var n := |slots| - 1;
      NowKeys(slots[..n]);
      hide Back;
      forall k | k in Now(slots) ensures BackKeyed(slots, k) {
        if k == Back(slots[n].key) {
          assert Back(slots[n].key) == k;
        } else {
          assert BackKeyed(slots[..n], k);
          var i :| 0 <= i < n && Back(slots[..n][i].key) == k;
          assert Back(slots[i].key) == k;
        }
      }
    }
  }

  /** The table with what stands under the keys after loading. */
  ghost function Renewed<V>(slots: seq<Slot<V>>): seq<Slot<V>> {
    seq(|slots|, i requires 0 <= i < |slots| => slots[i].(was := slots[i].now))
  }

  lemma {:induction false} NowOfSurvivors<V>(slots: seq<Slot<V>>)
    requires DistinctKeys(slots) && forall i :: 0 <= i < |slots| ==> Back(slots[i].key) == slots[i].key
    ensures Now(slots) == Was(Renewed(slots))
  {
    if slots != [] {
      var n := |slots| - 1;
      hide Back;
      NowOfSurvivors(slots[..n]);
      assert Renewed(slots)[..n] == Renewed(slots[..n]);
      NowKeys(slots[..n]);
      forall i | 0 <= i < n ensures Back(slots[..n][i].key) != slots[n].key {
        assert slots[..n][i] == slots[i];
      }
      assert slots[n].key in Now(slots[..n]) ==> BackKeyed(slots[..n], slots[n].key);
    }
  }

  ghost predicate SlotBack<V>(e: Slot<V>) { Back(e.key) == e.key && e.now == e.was }

  /** A table comes back exactly when every key and everything under a key does. */
  lemma TableBackWhen<V>(slots: seq<Slot<V>>)
    requires DistinctKeys(slots)
    ensures Now(slots) == Was(slots) <==> forall i :: 0 <= i < |slots| ==> SlotBack(slots[i])
  {
    hide Back;
    WasFacts(slots);
    if Now(slots) == Was(slots) {
      KeysSurvive(slots);
      NowOfSurvivors(slots);
      assert DistinctKeys(Renewed(slots));
      WasFacts(Renewed(slots));
      hide Was, Now;
      forall i | 0 <= i < |slots| ensures SlotBack(slots[i]) {
        assert Renewed(slots)[i].key == slots[i].key;
      }
    }
    if forall i :: 0 <= i < |slots| ==> SlotBack(slots[i]) {
      forall i | 0 <= i < |slots| ensures Back(slots[i].key) == slots[i].key { assert SlotBack(slots[i]); }
      NowOfSurvivors(slots);
      assert Renewed(slots) == slots;
    }
  }

  lemma KeysSurvive<V>(slots: seq<Slot<V>>)
    requires DistinctKeys(slots) && Now(slots) == Was(slots)
    ensures forall i :: 0 <= i < |slots| ==> Back(slots[i].key) == slots[i].key
  {
    hide Back, Now, Was;
    WasFacts(slots);
    NowKeys(slots);
    forall i | 0 <= i < |slots| ensures Back(slots[i].key) == slots[i].key {
      assert slots[i].key in Now(slots);
      assert BackKeyed(slots, slots[i].key);
      var j :| 0 <= j < |slots| && Back(slots[j].key) == slots[i].key;
      BackTwice(slots[j].key);
    }
  }

  // ---------- members of sorted sets ----------

  /** The members after loading: each name once. */
  ghost function Kept(es: seq<Scored>): seq<Scored> {
    if es == [] then []
    else
      var (front, e) := (Kept(es[..|es| - 1]), es[|es| - 1]);
      if Named(front, Back(e.name)) then front else front + [SortedSet.Scored(Back(e.name), e.score)]
  }

  lemma KeptNext(es: seq<Scored>, i: nat)
    requires i < |es|
    ensures var (front, e) := (Kept(es[..i]), es[i]);
      Kept(es[..i + 1]) ==
        if Named(front, Back(e.name)) then front else front + [SortedSet.Scored(Back(e.name), e.score)]
  {
    assert es[..i + 1][..i] == es[..i];
  }

  lemma {:induction false} KeptFacts(es: seq<Scored>)
    ensures DistinctNames(Kept(es)) && forall i :: 0 <= i < |Kept(es)| ==> Back(Kept(es)[i].name) == Kept(es)[i].name
  {
    if es != [] {
      var n := |es| - 1;
      KeptFacts(es[..n]);
      BackTwice(es[n].name);
      hide Back;
      var front := Kept(es[..n]);
      if !Named(front, Back(es[n].name)) {
        assert forall i :: 0 <= i < |front| ==> front[i].name != Back(es[n].name);
      }
    }
  }

  lemma {:induction false} KeptSurvivors(es: seq<Scored>)
    requires DistinctNames(es) && forall i :: 0 <= i < |es| ==> Back(es[i].name) == es[i].name
    ensures Kept(es) == es
  {
    if es != [] {
      var n := |es| - 1;
      hide Back;
      KeptSurvivors(es[..n]);
      forall i | 0 <= i < n ensures es[..n][i].name != es[n].name {
        assert es[..n][i] == es[i];
      }
      assert es[..n] + [es[n]] == es;
    }
  }

  /** The list of a sorted set comes back exactly when all names do. */
  lemma MembersBackWhen(es: seq<Scored>)
    requires DistinctNames(es)
    ensures Kept(es) == es <==> forall i :: 0 <= i < |es| ==> Back(es[i].name) == es[i].name
  {
    hide Back;
    KeptFacts(es);
    if forall i :: 0 <= i < |es| ==> Back(es[i].name) == es[i].name { KeptSurvivors(es); }
  }

  /** "07" and "7" under two keys: after loading there is one entry, the first that was written. */
  lemma KeysCollide<V>(a: V, b: V)
    ensures var slots := [Slot([48, 55], a, a), Slot([55], b, b)];
      DistinctKeys(slots) && Was(slots) == map[[48, 55] := a, [55] := b] && Now(slots) == map[[55] := a]
  {
    var slots := [Slot([48, 55], a, a), Slot([55], b, b)];
    SevenBack();
    hide Back;
    assert slots[..1] == [Slot([48, 55], a, a)] && slots[..1][..0] == [];
    assert Was(slots[..1][..0]) == map[] && Was(slots[..1]) == map[[48, 55] := a];
    assert Now(slots[..1][..0]) == map[] && Now(slots[..1]) == map[[55] := a];
  }

  lemma SevenBack()
    ensures Back([48, 55]) == [55] && Back([55]) == [55]
  {
    assert [48, 55][..1] == [48] && [48][..0] == [] && [55][..0] == [];
    assert Value([48]) == 0 && Value([48, 55]) == 7 && Value([55]) == 7;
    assert Digits(7) == [55];
  }
}
