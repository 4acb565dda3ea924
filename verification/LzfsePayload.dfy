/**
 * The FSE payloads of a block as byte strings of their own: what was coded does not depend on the
 * bytes in front of it.
 */
module LzfsePayload {
  import opened Bytes
  import opened BitStream
  import opened Powers
  import opened FseTables
  import opened Fse
  import opened Lmd

  /** The bits of `t` on top of those of `base`. */
  function On(base: Bits, t: Bits): Bits { base.Push(t.v, t.n) }

  lemma OnPush(base: Bits, t: Bits, b: nat, w: nat)
    ensures On(base, t).Push(b, w) == On(base, t.Push(b, w))
  {
    PushTwice(base, t.v, t.n, b, w);
  }

  lemma ItemOn(coders: seq<Coder>, it: Item, base: Bits, t: Bits, states: seq<nat>)
    requires ItemOk(coders, it) && StatesOk(coders, states)
    ensures var r := EncodeItem(coders, it, t, states);
      EncodeItem(coders, it, On(base, t), states) == (On(base, r.0), r.1)
  {
    OccursBounds(coders[it.lane].freq, coders[it.lane].bits, it.sym);
    hide Pow2, Quot, Rem, EncoderEntryOf, EncodeStep, LeadsBack, Bits.Push;
    var freq, bits, s := coders[it.lane].freq, coders[it.lane].bits, states[it.lane];
    StepInverts(freq[it.sym], Offset(freq, it.sym), s, it.sym, bits);
    var x := EncodeStep(EncoderEntryOf(freq[it.sym], Offset(freq, it.sym), bits), s);
    OnPush(base, t, it.extra, it.extraBits);
    OnPush(base, t.Push(it.extra, it.extraBits), x.0, x.1);
  }

  lemma {:induction false} ItemsOn(coders: seq<Coder>, items: seq<Item>, i: nat, base: Bits)
    requires ItemsOk(coders, items) && i <= |items|
    ensures var r := EncodeItems(coders, items, i, Bits(0, 0));
      EncodeItems(coders, items, i, base) == (On(base, r.0), r.1)
    decreases |items| - i
  {
    hide EncodeItem, ItemOk, Pow2;
    if i < |items| {
      ItemsOn(coders, items, i + 1, base);
      var (t, states) := EncodeItems(coders, items, i + 1, Bits(0, 0));
      assert ItemOk(coders, items[i]);
      ItemOn(coders, items[i], base, t, states);
    }
  }

  /** Bytes after a prefix hold the bits on top of the prefix's. */
  lemma OnBytes(pre: seq<byte>, b: seq<byte>, nbits: int, r: Bits)
    ensures var base := Bits(LittleEndian(pre), 8 * |pre|);
      LittleEndian(pre + b) == On(base, r).v && 8 * |pre + b| + nbits == On(base, r).n
      <==> LittleEndian(b) == r.v && 8 * |b| + nbits == r.n
  {
    hide Pow2, LittleEndian;
    LittleEndianConcat(pre, b);
    var p, x, y := Pow2(8 * |pre|), LittleEndian(b), r.v;
    if x < y {
      MulMono(x + 1, y, p);
      MulDist(x, 1, p);
    } else if y < x {
      MulMono(y + 1, x, p);
      MulDist(y, 1, p);
    }
  }

  // ---------- literals ----------

  ghost predicate LiteralBytes(freq: seq<nat>, literals: seq<nat>, b: seq<byte>, nbits: int, states: seq<nat>) {
    && LiteralsOk(freq, literals)
    && var r := LiteralState(freq, literals, 0, Bits(0, 0));
       LittleEndian(b) == r.0.v && 8 * |b| + nbits == r.0.n && states == r.1
  }

  lemma LiteralsAnywhere(freq: seq<nat>, literals: seq<nat>, pre: seq<byte>, b: seq<byte>, nbits: int, states: seq<nat>)
    ensures LiteralBytes(freq, literals, b, nbits, states) <==>
      LiteralPayload(freq, literals, pre, pre + b, nbits, states)
  {
    if LiteralsOk(freq, literals) {
      LiteralItemsOk(freq, literals);
      var base := Bits(LittleEndian(pre), 8 * |pre|);
      ItemsOn(LiteralCoders(freq), LiteralItems(literals), 0, base);
      hide LittleEndian, EncodeItems, Pow2, On, LiteralsOk, ItemsOk;
      OnBytes(pre, b, nbits, LiteralState(freq, literals, 0, Bits(0, 0)).0);
    }
  }

  // ---------- L, M, D values ----------

  ghost predicate LmdBytes(fr: Freqs, ts: seq<Triple>, b: seq<byte>, nbits: int, states: seq<nat>) {
    && TriplesOk(fr, ts)
    && var r := LmdState(fr, ts, 0, Bits(0, 0));
       LittleEndian(b) == r.0.v && 8 * |b| + nbits == r.0.n && states == r.1
  }

  lemma LmdAnywhere(fr: Freqs, ts: seq<Triple>, pre: seq<byte>, b: seq<byte>, nbits: int, states: seq<nat>)
    ensures LmdBytes(fr, ts, b, nbits, states) <==> LmdPayload(fr, ts, pre, pre + b, nbits, states)
  {
    if TriplesOk(fr, ts) {
      ItemsAreOk(fr, ts);
      var base := Bits(LittleEndian(pre), 8 * |pre|);
      ItemsOn(Coders(fr), Items(ts), 0, base);
      hide LittleEndian, EncodeItems, Pow2, On, TriplesOk, ItemsOk;
      OnBytes(pre, b, nbits, LmdState(fr, ts, 0, Bits(0, 0)).0);
    }
  }
}
