/**
 * snmalloc's remote-free queue: many producers, one consumer. A state machine whose steps are the
 * atomic operations of `enqueue`, `can_dequeue` and `dequeue`, under sequential consistency.
 *
 * `order` and `delivered` record history: the messages in the order of the exchanges on `back`,
 * and the messages handed to the callback. A message's memory may be enqueued again once it was
 * delivered, so `order` may repeat an address.
 */
module RemoteQueue {
  const NULL: nat := 0
  const STUB: nat := 1

  /** One thread inside `enqueue`, after the operation named. `pos` is where in `order` its messages start. */
  datatype Producer =
    | Idle
    | Prepared(segment: seq<nat>)
    | Nulled(segment: seq<nat>)
    | Exchanged(segment: seq<nat>, prev: nat, pos: nat)

  /** The owner of the queue: looking for messages, then inside `dequeue`. */
  datatype Consumer =
    | Away
    | Looking(first: nat)
    | Ready
    | Bounded(bound: nat)
    | At(bound: nat, curr: nat)
    | Taking(bound: nat, curr: nat, next: nat)
    | Storing(value: nat)

  datatype State = State(
    next: map<nat, nat>, front: nat, back: nat,
    producers: map<nat, Producer>, consumer: Consumer,
    order: seq<nat>, delivered: seq<nat>)

  function Next(next: map<nat, nat>, x: nat): nat { if x in next then next[x] else NULL }

  function At(ps: map<nat, Producer>, p: nat): Producer { if p in ps then ps[p] else Idle }

  /** The messages a producer has linked together and not yet published. */
  function Held(ps: map<nat, Producer>, p: nat): seq<nat> {
    match At(ps, p)
    case Prepared(seg) => seg
    case Nulled(seg) => seg
    case _ => []
  }

  /** Some producer has published the messages from `i` on and not yet linked them to those before. */
  ghost predicate Open(ps: map<nat, Producer>, i: nat) {
    exists p: nat :: At(ps, p).Exchanged? && At(ps, p).pos == i
  }

  datatype Label =
    | Prepare(p: nat, segment: seq<nat>)
    | StoreNull(p: nat)
    | Exchange(p: nat)
    | Link(p: nat)
    | LoadHead
    | CheckNext
    | LoadBack
    | LoadFront
    | ReadNext
    | Deliver(go: bool)
    | StoreFront

  function Init(): State {
    State(map[STUB := NULL], STUB, NULL, map[], Away, [], [])
  }

  /** A segment of messages nobody else uses. */
  ghost predicate Fresh(s: State, segment: seq<nat>) {
    && |segment| > 0
    && (forall k :: 0 <= k < |segment| ==> segment[k] != NULL && segment[k] != STUB)
    && (forall k, l :: 0 <= k < l < |segment| ==> segment[k] != segment[l])
    && (forall k, i :: 0 <= k < |segment| && |s.delivered| <= i < |s.order| ==> segment[k] != s.order[i])
    && (forall p: nat, k, l :: 0 <= k < |segment| && 0 <= l < |Held(s.producers, p)| ==>
      segment[k] != Held(s.producers, p)[l])
  }

  ghost predicate Enabled(s: State, l: Label) {
    match l
    case Prepare(p, segment) => At(s.producers, p).Idle? && Fresh(s, segment)
    case StoreNull(p) => At(s.producers, p).Prepared? && |At(s.producers, p).segment| > 0
    case Exchange(p) => At(s.producers, p).Nulled? && |At(s.producers, p).segment| > 0
    case Link(p) => At(s.producers, p).Exchanged? && |At(s.producers, p).segment| > 0
    case LoadHead => s.consumer.Away?
    case CheckNext => s.consumer.Looking?
    case LoadBack => s.consumer.Ready?
    case LoadFront => s.consumer.Bounded?
    case ReadNext => s.consumer.At?
    case Deliver(_) => s.consumer.Taking?
    case StoreFront => s.consumer.Storing?
  }

  /** The next fields after a segment is linked together; its last one is left as it was. */
  function Chain(next: map<nat, nat>, segment: seq<nat>): map<nat, nat>
    requires |segment| > 0
  {
    if |segment| == 1 then next
    else Chain(next, segment[1..])[segment[0] := segment[1]]
  }

  ghost function Apply(s: State, l: Label): State
    requires Enabled(s, l)
  {
    match l
    case Prepare(p, segment) =>
      s.(next := Chain(s.next, segment), producers := s.producers[p := Prepared(segment)])
    case StoreNull(p) =>
      var segment := At(s.producers, p).segment;
      s.(next := s.next[segment[|segment| - 1] := NULL], producers := s.producers[p := Nulled(segment)])
    case Exchange(p) =>
      var segment := At(s.producers, p).segment;
      s.(back := segment[|segment| - 1], order := s.order + segment,
         producers := s.producers[p := Exchanged(segment, s.back, |s.order|)])
    case Link(p) =>
      var e := At(s.producers, p);
      var s' := s.(producers := s.producers[p := Idle]);
      if e.prev != NULL then s'.(next := s.next[e.prev := e.segment[0]]) else s'.(front := e.segment[0])
    case LoadHead => s.(consumer := Looking(s.front))
    case CheckNext => s.(consumer := if Next(s.next, s.consumer.first) != NULL then Ready else Away)
    case LoadBack => s.(consumer := Bounded(s.back))
    case LoadFront => s.(consumer := Consumer.At(s.consumer.bound, s.front))
    case ReadNext =>
      var bound, curr := s.consumer.bound, s.consumer.curr;
      var next := Next(s.next, curr);
      s.(consumer := if curr == bound || next == NULL then Storing(curr) else Taking(bound, curr, next))
    case Deliver(go) =>
      var bound, curr, next := s.consumer.bound, s.consumer.curr, s.consumer.next;
      s.(delivered := s.delivered + [curr], consumer := if go then Consumer.At(bound, next) else Storing(next))
    case StoreFront => s.(front := s.consumer.value, consumer := Away)
  }

  ghost predicate Run(s: State, labels: seq<Label>, s': State)
    decreases |labels|
  {
    if labels == [] then s == s'
    else Enabled(s, labels[0]) && Run(Apply(s, labels[0]), labels[1..], s')
  }

  // ---------- the invariant ----------

  /** The undelivered messages, from position `d` on, are distinct. */
  ghost predicate Distinct(order: seq<nat>, d: nat) {
    && (forall i :: d <= i < |order| ==> order[i] != NULL && order[i] != STUB)
    && (forall i, j :: d <= i < j < |order| ==> order[i] != order[j])
  }

  /** An unpublished message is in one segment, at one place, and not in the queue. */
  ghost predicate Separate(ps: map<nat, Producer>, order: seq<nat>, d: nat) {
    && (forall p: nat, k :: 0 <= k < |Held(ps, p)| ==> Held(ps, p)[k] != NULL && Held(ps, p)[k] != STUB)
    && (forall p: nat, k, l :: 0 <= k < l < |Held(ps, p)| ==> Held(ps, p)[k] != Held(ps, p)[l])
    && (forall p: nat, k, i :: 0 <= k < |Held(ps, p)| && d <= i < |order| ==> Held(ps, p)[k] != order[i])
    && (forall p: nat, q: nat, k, l :: p != q && 0 <= k < |Held(ps, p)| && 0 <= l < |Held(ps, q)| ==>
          Held(ps, p)[k] != Held(ps, q)[l])
  }

  /** Unpublished segments are linked, with a null tail once it was stored. */
  ghost predicate SegmentsLinked(ps: map<nat, Producer>, next: map<nat, nat>) {
    && Next(next, STUB) == NULL
    && (forall p: nat, k :: 0 <= k < |Held(ps, p)| - 1 ==> Next(next, Held(ps, p)[k]) == Held(ps, p)[k + 1])
    && (forall p: nat :: At(ps, p).Nulled? && |Held(ps, p)| > 0 ==> Next(next, Held(ps, p)[|Held(ps, p)| - 1]) == NULL)
  }

  /** Undelivered messages are linked in order, except where a producer has still to write the link. */
  ghost predicate OrderLinked(ps: map<nat, Producer>, next: map<nat, nat>, back: nat, order: seq<nat>, d: nat) {
    && back == (if |order| == 0 then NULL else order[|order| - 1])
    && (|order| > 0 ==> d < |order| && Next(next, order[|order| - 1]) == NULL)
    && (forall i {:trigger order[i]} :: d <= i < |order| - 1 ==>
          Next(next, order[i]) == (if Open(ps, i + 1) then NULL else order[i + 1]))
  }

  /** Each producer about to link knows the message before its own. */
  ghost predicate LinksPending(ps: map<nat, Producer>, order: seq<nat>, d: nat) {
    && (forall p: nat :: At(ps, p).Exchanged? ==>
          var e := At(ps, p);
          && e.pos < |order| && |e.segment| > 0 && e.segment[0] == order[e.pos]
          && (if e.pos == 0 then e.prev == NULL && d == 0 else d < e.pos && e.prev == order[e.pos - 1]))
    && (forall p: nat, q: nat :: At(ps, p).Exchanged? && At(ps, q).Exchanged? && p != q ==>
      At(ps, p).pos != At(ps, q).pos)
  }

  /** The first producer has written `front`. */
  ghost predicate Started(ps: map<nat, Producer>, order: seq<nat>) { |order| > 0 && !Open(ps, 0) }

  ghost predicate Bound(order: seq<nat>, b: nat, from: nat) { exists i :: from <= i < |order| && order[i] == b }

  ghost predicate FrontOk(ps: map<nat, Producer>, order: seq<nat>, d: nat, front: nat) {
    if Started(ps, order) then d < |order| && front == order[d] else front == STUB
  }

  ghost predicate ConsumerOk(c: Consumer, ps: map<nat, Producer>, order: seq<nat>, d: nat, front: nat) {
    match c
    case Away => FrontOk(ps, order, d, front)
    case Looking(f) => FrontOk(ps, order, d, front) && (f == front || f == STUB)
    case Ready => Started(ps, order) && FrontOk(ps, order, d, front)
    case Bounded(b) => Started(ps, order) && FrontOk(ps, order, d, front) && Bound(order, b, d)
    case At(b, curr) => Started(ps, order) && d < |order| && curr == order[d] && Bound(order, b, d)
    case Taking(b, curr, next) =>
      && Started(ps, order) && d + 1 < |order| && curr == order[d] && next == order[d + 1] && Bound(order, b, d + 1)
      && !Open(ps, d + 1)
    case Storing(v) => Started(ps, order) && d < |order| && v == order[d]
  }

  ghost predicate Inv(s: State) {
    var d := |s.delivered|;
    && d <= |s.order| && s.delivered == s.order[..d]
    && Distinct(s.order, d) && Separate(s.producers, s.order, d)
    && SegmentsLinked(s.producers, s.next) && OrderLinked(s.producers, s.next, s.back, s.order, d)
    && LinksPending(s.producers, s.order, d) && ConsumerOk(s.consumer, s.producers, s.order, d, s.front)
  }

  // ---------- every step keeps it ----------

  lemma LoadStep(s: State, l: Label)
    requires Inv(s) && Enabled(s, l) && (l.LoadHead? || l.CheckNext? || l.LoadBack? || l.LoadFront? || l.StoreFront?)
    ensures Inv(Apply(s, l))
  {
    hide Separate, LinksPending, Distinct, Open;
  }

  lemma ReadNextStep(s: State)
    requires Inv(s) && Enabled(s, ReadNext)
    ensures Inv(Apply(s, ReadNext))
  {
    hide Separate, LinksPending, SegmentsLinked, Open;
  }

  lemma LinksLater(ps: map<nat, Producer>, order: seq<nat>, d: nat)
    requires LinksPending(ps, order, d) && !Open(ps, 0) && !Open(ps, d + 1)
    ensures LinksPending(ps, order, d + 1)
  {
  }

  lemma SeparateLater(ps: map<nat, Producer>, order: seq<nat>, d: nat)
    requires Separate(ps, order, d)
    ensures Separate(ps, order, d + 1)
  {
  }

  lemma OrderLater(ps: map<nat, Producer>, next: map<nat, nat>, back: nat, order: seq<nat>, d: nat)
    requires OrderLinked(ps, next, back, order, d) && Distinct(order, d) && d + 1 < |order|
    ensures OrderLinked(ps, next, back, order, d + 1) && Distinct(order, d + 1)
  {
    hide Open, Next;
  }

  lemma ConsumerLater(c: Consumer, ps: map<nat, Producer>, order: seq<nat>, d: nat, front: nat, go: bool)
    requires c.Taking? && ConsumerOk(c, ps, order, d, front)
    ensures d + 1 < |order| && c.curr == order[d] && !Open(ps, 0) && !Open(ps, d + 1)
    ensures ConsumerOk(if go then Consumer.At(c.bound, c.next) else Storing(c.next), ps, order, d + 1, front)
  {
    hide Open;
  }

  lemma DeliverStep(s: State, go: bool)
    requires Inv(s) && Enabled(s, Deliver(go))
    ensures Inv(Apply(s, Deliver(go)))
  {
    hide SegmentsLinked, LinksPending, Separate, Open, OrderLinked, Distinct, ConsumerOk;
    var d := |s.delivered|;
    ConsumerLater(s.consumer, s.producers, s.order, d, s.front, go);
    OrderLater(s.producers, s.next, s.back, s.order, d);
    LinksLater(s.producers, s.order, d);
    SeparateLater(s.producers, s.order, d);
    assert s.delivered + [s.order[d]] == s.order[..d + 1];
  }

  // A producer changes its own entry only.

  lemma Entry(ps: map<nat, Producer>, p: nat, e: Producer)
    ensures At(ps[p := e], p) == e
    ensures forall q: nat {:trigger At(ps[p := e], q)} {:trigger Held(ps[p := e], q)} :: q != p ==>
      At(ps[p := e], q) == At(ps, q) && Held(ps[p := e], q) == Held(ps, q)
  {
  }

  lemma OpenSame(ps: map<nat, Producer>, p: nat, e: Producer)
    requires !At(ps, p).Exchanged? && !e.Exchanged?
    ensures forall i: nat :: Open(ps[p := e], i) == Open(ps, i)
  {
    var ps' := ps[p := e];
    Entry(ps, p, e);
    forall i: nat ensures Open(ps', i) == Open(ps, i) {
      if Open(ps, i) {
        var q: nat :| At(ps, q).Exchanged? && At(ps, q).pos == i;
        assert At(ps', q) == At(ps, q);
      }
      if Open(ps', i) {
        var q: nat :| At(ps', q).Exchanged? && At(ps', q).pos == i;
        assert At(ps', q) == At(ps, q);
      }
    }
  }

  lemma LinksSame(ps: map<nat, Producer>, p: nat, e: Producer, order: seq<nat>, d: nat)
    requires LinksPending(ps, order, d) && !e.Exchanged?
    ensures LinksPending(ps[p := e], order, d)
  {
    hide Held;
    Entry(ps, p, e);
  }

  /** Reads of `order` and `Open` alone are unaffected. */
  lemma ConsumerSame(c: Consumer, ps: map<nat, Producer>, ps': map<nat, Producer>, order: seq<nat>, d: nat, front: nat)
    requires ConsumerOk(c, ps, order, d, front) && forall i: nat :: Open(ps', i) == Open(ps, i)
    ensures ConsumerOk(c, ps', order, d, front)
  {
    hide Open, Bound;
  }

  lemma OrderSame(ps: map<nat, Producer>, ps': map<nat, Producer>, next: map<nat, nat>, next': map<nat, nat>,
                  back: nat, order: seq<nat>, d: nat)
    requires OrderLinked(ps, next, back, order, d) && forall i: nat :: Open(ps', i) == Open(ps, i)
    requires forall i :: d <= i < |order| ==> Next(next', order[i]) == Next(next, order[i])
    ensures OrderLinked(ps', next', back, order, d)
  {
    hide Open;
  }

  lemma ChainNext(next: map<nat, nat>, segment: seq<nat>)
    requires |segment| > 0 && forall k, l :: 0 <= k < l < |segment| ==> segment[k] != segment[l]
    ensures forall k :: 0 <= k < |segment| - 1 ==> Next(Chain(next, segment), segment[k]) == segment[k + 1]
    ensures forall x: nat :: (forall k :: 0 <= k < |segment| ==> segment[k] != x) ==>
      Next(Chain(next, segment), x) == Next(next, x)
  {
    if |segment| > 1 {
      var rest := segment[1..];
      ChainNext(next, rest);
      var next' := Chain(next, segment);
      forall k | 0 <= k < |segment| - 1 ensures Next(next', segment[k]) == segment[k + 1] {
        if k > 0 { assert rest[k - 1] == segment[k] && rest[k] == segment[k + 1]; }
      }
      forall x: nat | forall k :: 0 <= k < |segment| ==> segment[k] != x ensures Next(next', x) == Next(next, x) {
        assert forall k :: 0 <= k < |rest| ==> rest[k] == segment[k + 1];
        assert segment[0] != x;
      }
    }
  }

  lemma PrepareSeparate(ps: map<nat, Producer>, p: nat, segment: seq<nat>, s: State)
    requires s.producers == ps && Separate(ps, s.order, |s.delivered|) && Fresh(s, segment)
    ensures Separate(ps[p := Prepared(segment)], s.order, |s.delivered|)
  {
    var ps' := ps[p := Prepared(segment)];
    Entry(ps, p, Prepared(segment));
    assert Held(ps', p) == segment;
    hide Held;
  }

  lemma PrepareLinked(ps: map<nat, Producer>, p: nat, segment: seq<nat>, s: State)
    requires s.producers == ps && SegmentsLinked(ps, s.next) && Fresh(s, segment)
    ensures SegmentsLinked(ps[p := Prepared(segment)], Chain(s.next, segment))
  {
    var ps' := ps[p := Prepared(segment)];
    Entry(ps, p, Prepared(segment));
    assert Held(ps', p) == segment;
    ChainNext(s.next, segment);
    hide Held, Chain, Next;
  }

  lemma PrepareStep(s: State, p: nat, segment: seq<nat>)
    requires Inv(s) && Enabled(s, Prepare(p, segment))
    ensures Inv(Apply(s, Prepare(p, segment)))
  {
    var ps', next' := s.producers[p := Prepared(segment)], Chain(s.next, segment);
    OpenSame(s.producers, p, Prepared(segment));
    LinksSame(s.producers, p, Prepared(segment), s.order, |s.delivered|);
    ConsumerSame(s.consumer, s.producers, ps', s.order, |s.delivered|, s.front);
    PrepareSeparate(s.producers, p, segment, s);
    PrepareLinked(s.producers, p, segment, s);
    ChainNext(s.next, segment);
    hide Chain, Next, Open;
    OrderSame(s.producers, ps', s.next, next', s.back, s.order, |s.delivered|);
    hide OrderLinked, SegmentsLinked, Separate, LinksPending, ConsumerOk, Distinct;
  }

  lemma StoreNullStep(s: State, p: nat)
    requires Inv(s) && Enabled(s, StoreNull(p))
    ensures Inv(Apply(s, StoreNull(p)))
  {
    hide OrderLinked, SegmentsLinked, Separate, LinksPending, ConsumerOk, Distinct, Open, Next;
    var segment := At(s.producers, p).segment;
    var ps', next' := s.producers[p := Nulled(segment)], s.next[segment[|segment| - 1] := NULL];
    OpenSame(s.producers, p, Nulled(segment));
    LinksSame(s.producers, p, Nulled(segment), s.order, |s.delivered|);
    ConsumerSame(s.consumer, s.producers, ps', s.order, |s.delivered|, s.front);
    StoreNullHeld(s.producers, p, s.next, s.order, |s.delivered|);
    StoreNullOrder(s.producers, p, s.next, s.order, |s.delivered|);
    OrderSame(s.producers, ps', s.next, next', s.back, s.order, |s.delivered|);
  }

  lemma StoreNullOrder(ps: map<nat, Producer>, p: nat, next: map<nat, nat>, order: seq<nat>, d: nat)
    requires At(ps, p).Prepared? && |At(ps, p).segment| > 0 && Separate(ps, order, d)
    ensures var segment := At(ps, p).segment;
      forall i :: d <= i < |order| ==> Next(next[segment[|segment| - 1] := NULL], order[i]) == Next(next, order[i])
  {
    assert Held(ps, p) == At(ps, p).segment;
  }

  lemma StoreNullHeld(ps: map<nat, Producer>, p: nat, next: map<nat, nat>, order: seq<nat>, d: nat)
    requires At(ps, p).Prepared? && |At(ps, p).segment| > 0 && Separate(ps, order, d) && SegmentsLinked(ps, next)
    ensures var segment := At(ps, p).segment;
      && Separate(ps[p := Nulled(segment)], order, d)
      && SegmentsLinked(ps[p := Nulled(segment)], next[segment[|segment| - 1] := NULL])
  {
    var segment := At(ps, p).segment;
    var ps' := ps[p := Nulled(segment)];
    Entry(ps, p, Nulled(segment));
    assert Held(ps, p) == segment && forall q: nat :: Held(ps', q) == Held(ps, q);
    hide Held;
  }

  // ---------- the exchange ----------

  lemma ExchangeOpen(ps: map<nat, Producer>, p: nat, e: Producer)
    requires !At(ps, p).Exchanged? && e.Exchanged?
    ensures forall i: nat :: Open(ps[p := e], i) <==> Open(ps, i) || i == e.pos
  {
    var ps' := ps[p := e];
    Entry(ps, p, e);
    forall i: nat ensures Open(ps', i) <==> Open(ps, i) || i == e.pos {
      if Open(ps, i) {
        var q: nat :| At(ps, q).Exchanged? && At(ps, q).pos == i;
        assert At(ps', q) == At(ps, q);
      }
      if i == e.pos { assert At(ps', p) == e; }
    }
  }

  lemma ExchangeLinks(ps: map<nat, Producer>, p: nat, order: seq<nat>, segment: seq<nat>, back: nat, d: nat)
    requires LinksPending(ps, order, d) && |segment| > 0 && d <= |order| && (|order| > 0 ==> d < |order|)
    requires back == if |order| == 0 then NULL else order[|order| - 1]
    ensures LinksPending(ps[p := Exchanged(segment, back, |order|)], order + segment, d)
  {
    hide Held;
    Entry(ps, p, Exchanged(segment, back, |order|));
  }

  lemma ExchangeSeparate(ps: map<nat, Producer>, p: nat, order: seq<nat>, d: nat, e: Producer)
    requires Separate(ps, order, d) && Distinct(order, d) && At(ps, p).Nulled? && e.Exchanged? && d <= |order|
    ensures var segment := At(ps, p).segment;
      Separate(ps[p := e], order + segment, d) && Distinct(order + segment, d)
  {
    var ps', segment := ps[p := e], At(ps, p).segment;
    Entry(ps, p, e);
    assert Held(ps, p) == segment && Held(ps', p) == [];
    hide Held;
    var order' := order + segment;
    forall q: nat, k, i | 0 <= k < |Held(ps', q)| && d <= i < |order'| ensures Held(ps', q)[k] != order'[i] {
      if i >= |order| { assert order'[i] == Held(ps, p)[i - |order|]; }
    }
    forall i, j | d <= i < j < |order'| ensures order'[i] != order'[j] {
      if j >= |order| {
        assert order'[j] == Held(ps, p)[j - |order|];
        if i >= |order| { assert order'[i] == Held(ps, p)[i - |order|]; }
      }
    }
    assert forall i :: |order| <= i < |order'| ==> order'[i] == Held(ps, p)[i - |order|];
  }

  lemma ExchangeSegments(ps: map<nat, Producer>, p: nat, next: map<nat, nat>, e: Producer)
    requires SegmentsLinked(ps, next) && e.Exchanged?
    ensures SegmentsLinked(ps[p := e], next)
  {
    Entry(ps, p, e);
    assert Held(ps[p := e], p) == [];
    hide Held;
  }

  lemma ExchangeOrder(ps: map<nat, Producer>, p: nat, next: map<nat, nat>, back: nat, order: seq<nat>, d: nat)
    requires OrderLinked(ps, next, back, order, d) && SegmentsLinked(ps, next) && LinksPending(ps, order, d)
    requires At(ps, p).Nulled? && |At(ps, p).segment| > 0 && d <= |order|
    ensures var segment := At(ps, p).segment;
      OrderLinked(ps[p := Exchanged(segment, back, |order|)], next, segment[|segment| - 1], order + segment, d)
  {
    var segment := At(ps, p).segment;
    var ps', order' := ps[p := Exchanged(segment, back, |order|)], order + segment;
    ExchangeOpen(ps, p, Exchanged(segment, back, |order|));
    assert forall i: nat :: Open(ps', i) <==> Open(ps, i) || i == |order|;
    assert Held(ps, p) == segment;
    NoOpenBeyond(ps, order, d);
    hide Open, LinksPending, Held, Next;
    forall i {:trigger order'[i]} | d <= i < |order'| - 1
      ensures Next(next, order'[i]) == (if Open(ps', i + 1) then NULL else order'[i + 1])
    {
      if i >= |order| {
        var k := i - |order|;
        assert Next(next, Held(ps, p)[k]) == Held(ps, p)[k + 1];
        assert !Open(ps', i + 1);
      } else if i == |order| - 1 {
        assert Open(ps', i + 1) && order'[i] == order[i];
      } else {
        assert order'[i] == order[i] && order'[i + 1] == order[i + 1] && Open(ps', i + 1) == Open(ps, i + 1);
      }
    }
  }

  lemma NoOpenBeyond(ps: map<nat, Producer>, order: seq<nat>, d: nat)
    requires LinksPending(ps, order, d)
    ensures forall i: nat :: Open(ps, i) ==> i < |order|
  {
  }

  lemma ExchangeConsumer(c: Consumer, ps: map<nat, Producer>, ps': map<nat, Producer>, order: seq<nat>,
                         segment: seq<nat>, d: nat, front: nat)
    requires ConsumerOk(c, ps, order, d, front) && forall i: nat :: Open(ps', i) <==> Open(ps, i) || i == |order|
    ensures ConsumerOk(c, ps', order + segment, d, front)
  {
    hide Open;
    var order' := order + segment;
    assert forall i :: 0 <= i < |order| ==> order'[i] == order[i];
  }

  lemma ExchangeStep(s: State, p: nat)
    requires Inv(s) && Enabled(s, Exchange(p))
    ensures Inv(Apply(s, Exchange(p)))
  {
    hide OrderLinked, SegmentsLinked, Separate, LinksPending, ConsumerOk, Distinct, Open, Next;
    var segment, d := At(s.producers, p).segment, |s.delivered|;
    var e := Exchanged(segment, s.back, |s.order|);
    BackIs(s);
    ExchangeOpen(s.producers, p, e);
    ExchangeLinks(s.producers, p, s.order, segment, s.back, d);
    ExchangeSeparate(s.producers, p, s.order, d, e);
    ExchangeSegments(s.producers, p, s.next, e);
    ExchangeOrder(s.producers, p, s.next, s.back, s.order, d);
    ExchangeConsumer(s.consumer, s.producers, s.producers[p := e], s.order, segment, d, s.front);
  }

  lemma BackIs(s: State)
    requires Inv(s)
    ensures s.back == (if |s.order| == 0 then NULL else s.order[|s.order| - 1])
    ensures |s.order| > 0 ==> |s.delivered| < |s.order|
  {
    hide SegmentsLinked, Separate, ConsumerOk, Open, Next, Distinct, LinksPending;
  }

  // ---------- writing the link ----------

  lemma LinkOpen(ps: map<nat, Producer>, p: nat, order: seq<nat>, d: nat)
    requires LinksPending(ps, order, d) && At(ps, p).Exchanged?
    ensures Open(ps, At(ps, p).pos)
    ensures forall i: nat :: Open(ps[p := Idle], i) <==> Open(ps, i) && i != At(ps, p).pos
  {
    var ps' := ps[p := Idle];
    Entry(ps, p, Idle);
    forall i: nat ensures Open(ps', i) <==> Open(ps, i) && i != At(ps, p).pos {
      if Open(ps, i) && i != At(ps, p).pos {
        var q: nat :| At(ps, q).Exchanged? && At(ps, q).pos == i;
        assert At(ps', q) == At(ps, q);
      }
      if Open(ps', i) {
        var q: nat :| At(ps', q).Exchanged? && At(ps', q).pos == i;
        assert At(ps', q) == At(ps, q);
      }
    }
  }

  lemma LinkSegments(ps: map<nat, Producer>, p: nat, next: map<nat, nat>, order: seq<nat>, d: nat, i: nat, v: nat)
    requires SegmentsLinked(ps, next) && Separate(ps, order, d) && Distinct(order, d) && d <= i < |order|
    requires At(ps, p).Exchanged?
    ensures SegmentsLinked(ps[p := Idle], next[order[i] := v]) && SegmentsLinked(ps[p := Idle], next)
    ensures Separate(ps[p := Idle], order, d)
  {
    var ps' := ps[p := Idle];
    Entry(ps, p, Idle);
    assert forall q: nat :: Held(ps', q) == Held(ps, q);
    hide Held;
  }

  lemma LinkOrder(ps: map<nat, Producer>, p: nat, next: map<nat, nat>, back: nat, order: seq<nat>, d: nat)
    requires OrderLinked(ps, next, back, order, d) && LinksPending(ps, order, d) && Distinct(order, d) &&
      At(ps, p).Exchanged?
    ensures var e := At(ps, p);
      if e.pos == 0 then OrderLinked(ps[p := Idle], next, back, order, d)
      else OrderLinked(ps[p := Idle], next[order[e.pos - 1] := order[e.pos]], back, order, d)
  {
    LinkOpen(ps, p, order, d);
    hide Open;
  }

  lemma LinkConsumer(c: Consumer, ps: map<nat, Producer>, ps': map<nat, Producer>, order: seq<nat>, d: nat,
                     front: nat, pos: nat)
    requires ConsumerOk(c, ps, order, d, front) && pos < |order| && (pos == 0 ==> d == 0) && Open(ps, pos)
    requires forall i: nat :: Open(ps', i) <==> Open(ps, i) && i != pos
    ensures ConsumerOk(c, ps', order, d, if pos == 0 then order[0] else front)
  {
    hide Open;
  }

  lemma LinkStep(s: State, p: nat)
    requires Inv(s) && Enabled(s, Link(p))
    ensures Inv(Apply(s, Link(p)))
  {
    hide OrderLinked, SegmentsLinked, Separate, ConsumerOk, Open, Next;
    var e, d := At(s.producers, p), |s.delivered|;
    LinkOpen(s.producers, p, s.order, d);
    LinkSegments(s.producers, p, s.next, s.order, d, if e.pos == 0 then d else e.pos - 1, e.segment[0]);
    LinkOrder(s.producers, p, s.next, s.back, s.order, d);
    LinkConsumer(s.consumer, s.producers, s.producers[p := Idle], s.order, d, s.front, e.pos);
    LinksSame(s.producers, p, Idle, s.order, d);
    hide LinksPending;
  }

  // ---------- main results ----------

  lemma StepKeeps(s: State, l: Label)
    requires Inv(s) && Enabled(s, l)
    ensures Inv(Apply(s, l))
  {
    hide Inv;
    match l
    case Prepare(p, segment) => PrepareStep(s, p, segment);
    case StoreNull(p) => StoreNullStep(s, p);
    case Exchange(p) => ExchangeStep(s, p);
    case Link(p) => LinkStep(s, p);
    case ReadNext => ReadNextStep(s);
    case Deliver(go) => DeliverStep(s, go);
    case _ => LoadStep(s, l);
  }

  lemma InitHolds()
    ensures Inv(Init())
  {
    assert forall p: nat :: At(Init().producers, p) == Idle && Held(Init().producers, p) == [];
  }

  /** Every state of every run satisfies the invariant. */
  lemma {:induction false} RunKeeps(s: State, labels: seq<Label>, s': State)
    requires Inv(s) && Run(s, labels, s')
    ensures Inv(s')
    decreases |labels|
  {
    hide Inv;
    if labels != [] {
      StepKeeps(s, labels[0]);
      RunKeeps(Apply(s, labels[0]), labels[1..], s');
    }
  }

  /**
   * In every interleaving: what was delivered is the start of the exchange order, so each message at
   * most once, none skipped; the source's own assertion holds; and while the first producer still
   * has to write `front`, the consumer is not past its check, so it cannot write `front` as well.
   */
  lemma Safety(labels: seq<Label>, s: State)
    requires Run(Init(), labels, s)
    ensures s.delivered <= s.order
    ensures s.back != NULL || s.front == STUB
    ensures forall p: nat :: At(s.producers, p).Exchanged? && At(s.producers, p).prev == NULL ==>
      s.front == STUB && (s.consumer.Away? || s.consumer.Looking?)
  {
    hide Run, Inv;
    InitHolds();
    RunKeeps(Init(), labels, s);
    SafeState(s);
  }

  lemma SafeState(s: State)
    requires Inv(s)
    ensures s.delivered <= s.order
    ensures s.back != NULL || s.front == STUB
    ensures forall p: nat :: At(s.producers, p).Exchanged? && At(s.producers, p).prev == NULL ==>
      s.front == STUB && (s.consumer.Away? || s.consumer.Looking?)
  {
    hide Separate, SegmentsLinked, Next, Bound;
    if exists p: nat :: At(s.producers, p).Exchanged? && At(s.producers, p).prev == NULL {
      var p: nat :| At(s.producers, p).Exchanged? && At(s.producers, p).prev == NULL;
      assert At(s.producers, p).pos == 0;
      assert Open(s.producers, 0);
    }
    hide LinksPending, Distinct, Open;
  }

  ghost predicate Quiet(s: State) {
    s.consumer.Away? && forall p: nat :: !At(s.producers, p).Exchanged?
  }

  /** When nobody is half-way, the undelivered messages are all reachable from `front`, up to `back`. */
  lemma NothingLost(labels: seq<Label>, s: State)
    requires Run(Init(), labels, s) && Quiet(s) && |s.order| > 0
    ensures var d := |s.delivered|;
      && d < |s.order| && s.front == s.order[d] && s.back == s.order[|s.order| - 1] && Next(s.next, s.back) == NULL
      && forall i {:trigger s.order[i]} :: d <= i < |s.order| - 1 ==> Next(s.next, s.order[i]) == s.order[i + 1]
  {
    InitHolds();
    RunKeeps(Init(), labels, s);
    hide Run, Separate, SegmentsLinked;
    assert forall i: nat :: !Open(s.producers, i);
  }

  /** The consumer's own steps, from inside `dequeue`: everything before the bound is delivered. */
  lemma {:induction false} Drain(s: State, i: nat) returns (labels: seq<Label>, s': State)
    requires Inv(s) && s.consumer.At? && |s.delivered| <= i < |s.order| && s.consumer.bound == s.order[i]
    requires forall p: nat :: !At(s.producers, p).Exchanged?
    ensures Run(s, labels, s') && s'.consumer.Away? && s'.order == s.order && s'.delivered == s.order[..i]
    decreases i - |s.delivered|
  {
    hide Inv;
    DrainStep(s, i);
    var s1 := Apply(s, ReadNext);
    StepKeeps(s, ReadNext);
    if i == |s.delivered| {
      s' := Apply(s1, StoreFront);
      labels := RunOne(s1, StoreFront, s', [], s');
      labels := RunOne(s, ReadNext, s1, labels, s');
    } else {
      var s2 := Apply(s1, Deliver(true));
      StepKeeps(s1, Deliver(true));
      labels, s' := Drain(s2, i);
      labels := RunOne(s1, Deliver(true), s2, labels, s');
      labels := RunOne(s, ReadNext, s1, labels, s');
    }
  }

  lemma DrainStep(s: State, i: nat)
    requires Inv(s) && s.consumer.At? && |s.delivered| <= i < |s.order| && s.consumer.bound == s.order[i]
    requires forall p: nat :: !At(s.producers, p).Exchanged?
    ensures s.delivered == s.order[..|s.delivered|]
    ensures if i == |s.delivered| then Apply(s, ReadNext).consumer.Storing? else Apply(s, ReadNext).consumer.Taking?
  {
    hide Separate, SegmentsLinked, LinksPending;
    assert !Open(s.producers, |s.delivered| + 1);
  }

  /** From a quiet state, one guarded `dequeue` delivers every message but the last. */
  lemma Dequeue(s: State) returns (labels: seq<Label>, s': State)
    requires Inv(s) && Quiet(s) && |s.delivered| + 1 < |s.order|
    ensures Run(s, labels, s') && s'.consumer.Away? && s'.order == s.order && s'.delivered == s.order[..|s.order| - 1]
  {
    GuardPasses(s);
    hide Inv, Run, Fresh;
    var s1 := s.(consumer := Looking(s.front));
    var s2 := s.(consumer := Ready);
    var s3 := s.(consumer := Bounded(s.back));
    var s4 := s.(consumer := Consumer.At(s.back, s.front));
    StepKeeps(s, LoadHead);
    StepKeeps(s1, CheckNext);
    StepKeeps(s2, LoadBack);
    StepKeeps(s3, LoadFront);
    labels, s' := Drain(s4, |s.order| - 1);
    labels := RunOne(s3, LoadFront, s4, labels, s');
    labels := RunOne(s2, LoadBack, s3, labels, s');
    labels := RunOne(s1, CheckNext, s2, labels, s');
    labels := RunOne(s, LoadHead, s1, labels, s');
  }

  lemma NoneOpen(s: State)
    requires Quiet(s)
    ensures forall i: nat :: !Open(s.producers, i)
  {
  }

  lemma Undelivered(s: State)
    requires Inv(s)
    ensures forall i :: |s.delivered| <= i < |s.order| ==> s.order[i] != NULL
  {
    hide Separate, SegmentsLinked, LinksPending, OrderLinked, ConsumerOk;
  }

  lemma GuardPasses(s: State)
    requires Inv(s) && Quiet(s) && |s.delivered| + 1 < |s.order|
    ensures Next(s.next, s.front) != NULL && s.back == s.order[|s.order| - 1]
  {
    hide Separate, SegmentsLinked, LinksPending, Open, Distinct, Next;
    NoneOpen(s);
    Undelivered(s);
  }

  // ---------- dequeue without its check ----------

  /** The consumer inside `dequeue`, without having looked. */
  function Entered(s: State): State { s.(consumer := Ready) }

  /** There are messages, the queue starts at the stub, and nobody is about to write where it starts. */
  ghost predicate Lost(s: State) {
    && |s.delivered| < |s.order| && s.front == STUB && Next(s.next, STUB) == NULL && s.back != NULL && s.back != STUB
    && (s.consumer.Away? || s.consumer == Looking(STUB))
    && (forall p: nat, k :: 0 <= k < |Held(s.producers, p)| ==>
      Held(s.producers, p)[k] != NULL && Held(s.producers, p)[k] != STUB)
    && (forall p: nat :: At(s.producers, p).Exchanged? ==>
      At(s.producers, p).prev != NULL && At(s.producers, p).prev != STUB)
  }

  lemma {:induction false} ChainKeeps(next: map<nat, nat>, segment: seq<nat>, x: nat)
    requires |segment| > 0 && forall k :: 0 <= k < |segment| ==> segment[k] != x
    ensures Next(Chain(next, segment), x) == Next(next, x)
  {
    if |segment| > 1 { ChainKeeps(next, segment[1..], x); }
  }

  lemma LostStep(s: State, l: Label)
    requires Lost(s) && Enabled(s, l)
    ensures Lost(Apply(s, l)) && Apply(s, l).delivered == s.delivered && s.order <= Apply(s, l).order
  {
    match l
    case Prepare(p, segment) =>
      Entry(s.producers, p, Prepared(segment));
      ChainKeeps(s.next, segment, STUB);
    case StoreNull(p) =>
      var e := At(s.producers, p);
      Entry(s.producers, p, Nulled(e.segment));
      assert Held(s.producers, p) == e.segment;
    case Exchange(p) =>
      var e := At(s.producers, p);
      Entry(s.producers, p, Exchanged(e.segment, s.back, |s.order|));
      assert Held(s.producers, p) == e.segment;
    case Link(p) =>
      Entry(s.producers, p, Idle);
    case _ =>
  }

  /** Once lost, always lost: no message is delivered any more. */
  lemma {:induction false} LostForever(s: State, labels: seq<Label>, s': State)
    requires Lost(s) && Run(s, labels, s')
    ensures Lost(s') && s'.delivered == s.delivered && s.order <= s'.order
    decreases |labels|
  {
    hide Lost;
    if labels != [] {
      LostStep(s, labels[0]);
      LostForever(Apply(s, labels[0]), labels[1..], s');
    }
  }

  lemma LostNotInv(s: State)
    requires Lost(s)
    ensures !Inv(s)
  {
    hide Separate, SegmentsLinked, OrderLinked;
    if Inv(s) {
      AllLinked(s);
      assert false;
    }
  }

  lemma AllLinked(s: State)
    requires Lost(s) && LinksPending(s.producers, s.order, |s.delivered|)
    ensures Started(s.producers, s.order)
  {
  }

  /** A producer's step does not care where the consumer is. */
  lemma Beside(s: State, l: Label)
    requires Enabled(s, l) && (l.Prepare? || l.StoreNull? || l.Exchange?) && s.consumer.Away?
    ensures Enabled(Entered(s), l) && Apply(Entered(s), l) == Entered(Apply(s, l))
    ensures Apply(s, l).consumer.Away? && Apply(s, l).front == s.front
  {
    assert l.Prepare? ==> Fresh(Entered(s), l.segment);
  }

  /** The first producer has published and not linked: the consumer writes `front` after it. */
  lemma LosesAtLink(s: State, p: nat) returns (labels: seq<Label>, s': State)
    requires Inv(s) && s.consumer.Away? && s.front == STUB && At(s.producers, p).Exchanged? &&
      At(s.producers, p).pos == 0
    ensures Run(Entered(s), labels, s') && Lost(s')
  {
    StubFacts(s, p);
    var s1 := s.(consumer := Bounded(s.back));
    var s2 := s.(consumer := Consumer.At(s.back, STUB));
    var s3 := s.(consumer := Storing(STUB));
    var s4 := Apply(s3, Link(p));
    s' := Apply(s4, StoreFront);
    LosesEnd(s, p);
    hide Inv, Run, Lost, Fresh;
    EmptyRun(s');
    labels := RunOne(s4, StoreFront, s', [], s');
    labels := RunOne(s3, Link(p), s4, labels, s');
    labels := RunOne(s2, ReadNext, s3, labels, s');
    labels := RunOne(s1, LoadFront, s2, labels, s');
    labels := RunOne(Entered(s), LoadBack, s1, labels, s');
  }

  lemma EmptyRun(s: State)
    ensures Run(s, [], s)
  {
  }

  lemma StubFacts(s: State, p: nat)
    requires Inv(s) && At(s.producers, p).Exchanged? && At(s.producers, p).pos == 0
    ensures Next(s.next, STUB) == NULL && |At(s.producers, p).segment| > 0 && At(s.producers, p).prev == NULL
    ensures |s.delivered| == 0 < |s.order|
  {
    hide Separate, OrderLinked, ConsumerOk, Distinct, Open;
  }

  lemma LosesEnd(s: State, p: nat)
    requires Inv(s) && s.consumer.Away? && At(s.producers, p).Exchanged? && At(s.producers, p).pos == 0
    requires |At(s.producers, p).segment| > 0 && At(s.producers, p).prev == NULL
    ensures var s4 := Apply(s.(consumer := Storing(STUB)), Link(p)); Lost(Apply(s4, StoreFront))
  {
    hide ConsumerOk, Open, Fresh;
    var ps := s.producers[p := Idle];
    Entry(s.producers, p, Idle);
    forall q: nat | At(ps, q).Exchanged? ensures At(ps, q).prev != NULL && At(ps, q).prev != STUB {
      assert q != p && At(s.producers, q).pos != 0;
    }
    forall q: nat, k | 0 <= k < |Held(ps, q)| ensures Held(ps, q)[k] != NULL && Held(ps, q)[k] != STUB {
      assert q != p;
    }
  }

  lemma {:induction false} Above(s: set<nat>) returns (m: nat)
    ensures forall x <- s :: x < m
  {
    if s == {} {
      m := 0;
    } else {
      var x :| x in s;
      m := Above(s - {x});
      m := if m > x then m else x + 1;
      assert s == (s - {x}) + {x};
    }
  }

  lemma LosesNulled(s: State, p: nat) returns (labels: seq<Label>, s': State)
    requires Inv(s) && s.consumer.Away? && s.front == STUB && s.order == []
    requires At(s.producers, p).Nulled? && |At(s.producers, p).segment| > 0
    ensures Run(Entered(s), labels, s') && Lost(s')
  {
    var l := Exchange(p);
    var t := Apply(s, l);
    StepKeeps(s, l);
    Beside(s, l);
    Entry(s.producers, p, At(t.producers, p));
    hide Inv, Run, Lost, Fresh;
    labels, s' := LosesAtLink(t, p);
    labels := RunOne(Entered(s), l, Entered(t), labels, s');
  }

  lemma LosesPrepared(s: State, p: nat) returns (labels: seq<Label>, s': State)
    requires Inv(s) && s.consumer.Away? && s.front == STUB && s.order == []
    requires At(s.producers, p).Prepared? && |At(s.producers, p).segment| > 0
    ensures Run(Entered(s), labels, s') && Lost(s')
  {
    hide Inv, Run, Lost, Fresh;
    var l := StoreNull(p);
    var t := Apply(s, l);
    StepKeeps(s, l);
    Beside(s, l);
    Entry(s.producers, p, At(t.producers, p));
    labels, s' := LosesNulled(t, p);
    labels := RunOne(Entered(s), l, Entered(t), labels, s');
  }

  lemma LosesIdle(s: State) returns (labels: seq<Label>, s': State)
    requires Inv(s) && s.consumer.Away? && s.front == STUB && s.order == []
    requires forall p: nat :: |Held(s.producers, p)| == 0
    ensures Run(Entered(s), labels, s') && Lost(s')
  {
    var p := Above(s.producers.Keys);
    assert p !in s.producers;
    assert Fresh(s, [2]);
    hide Inv, Run, Lost, Fresh;
    var l := Prepare(p, [2]);
    var t := Apply(s, l);
    StepKeeps(s, l);
    Beside(s, l);
    Entry(s.producers, p, Prepared([2]));
    labels, s' := LosesPrepared(t, p);
    labels := RunOne(Entered(s), l, Entered(t), labels, s');
  }

  /** Entered without the check while `front` is the stub, `dequeue` can lose the queue. */
  lemma Loses(s: State) returns (labels: seq<Label>, s': State)
    requires Inv(s) && s.consumer.Away? && s.front == STUB
    ensures Run(Entered(s), labels, s') && Lost(s')
  {
    StubOpen(s);
    hide Inv, Run, Lost;
    if s.order != [] {
      var p: nat :| At(s.producers, p).Exchanged? && At(s.producers, p).pos == 0;
      labels, s' := LosesAtLink(s, p);
    } else if p: nat :| |Held(s.producers, p)| > 0 {
      if At(s.producers, p).Prepared? {
        labels, s' := LosesPrepared(s, p);
      } else {
        labels, s' := LosesNulled(s, p);
      }
    } else {
      labels, s' := LosesIdle(s);
    }
  }

  lemma StubOpen(s: State)
    requires Inv(s) && s.consumer.Away?
    ensures s.front == STUB <==> !Started(s.producers, s.order)
    ensures s.front == STUB && s.order != [] ==> Open(s.producers, 0)
  {
    hide Separate, SegmentsLinked, OrderLinked, LinksPending, Open;
  }

  lemma EnteredOk(s: State)
    requires Inv(s) && s.consumer.Away? && s.front != STUB
    ensures Inv(Entered(s))
  {
    StubOpen(s);
    hide Separate, SegmentsLinked, OrderLinked, LinksPending, Open, Distinct;
  }

  /**
   * When the check is needed: from a state a run can reach, `dequeue` entered without it is safe on every
   * run exactly when `front` is not the stub; otherwise some run loses the queue for good.
   */
  lemma GuardNeeded(before: seq<Label>, s: State)
    requires Run(Init(), before, s) && s.consumer.Away?
    ensures s.front != STUB <==> forall labels, s' :: Run(Entered(s), labels, s') ==> Inv(s')
    ensures s.front == STUB <==> exists labels, s' :: Run(Entered(s), labels, s') && Lost(s')
  {
    hide Run, Inv, Lost;
    InitHolds();
    RunKeeps(Init(), before, s);
    if s.front == STUB {
      var labels, s' := Loses(s);
      LostNotInv(s');
    } else {
      EnteredOk(s);
      forall labels, s' | Run(Entered(s), labels, s') ensures Inv(s') && !Lost(s') {
        RunKeeps(Entered(s), labels, s');
        if Lost(s') { LostNotInv(s'); }
      }
    }
  }

  lemma RunOne(s: State, a: Label, s1: State, rest: seq<Label>, s': State) returns (labels: seq<Label>)
    requires Enabled(s, a) && s1 == Apply(s, a) && Run(s1, rest, s')
    ensures Run(s, labels, s')
  {
    labels := [a] + rest;
    assert labels[1..] == rest;
  }
}
