/**
 * `range_to_pow_2_blocks` and the consolidating range on top of the buddy allocator. Memory is
 * counted in chunks; `Up` gives the block a chunk lies in.
 */
module Range {
  import opened Powers
  import opened BuddyBlocks
  import opened Buddy

  // ---------- chunks of a block ----------

  /** Chunk `u` lies in block `n` of level `l` exactly when it is between the block's ends. */
  lemma {:induction false} UpRange(u: nat, l: nat, n: nat)
    ensures Up(u, l) == n <==> First(l, n) <= u < First(l, n + 1)
  {
    var m := Up(u, l);
    UpBounds(u, l);
    if m < n {
      if m + 1 < n { FirstGrows(l, m + 1, n); }
    } else if n < m {
      if n + 1 < m { FirstGrows(l, n + 1, m); }
    }
  }

  lemma {:induction false} UpBounds(u: nat, l: nat)
    ensures First(l, Up(u, l)) <= u < First(l, Up(u, l) + 1)
  {
    if l > 0 {
      UpBounds(u, l - 1);
      UpStep(u, l - 1);
      var m, n := Up(u, l - 1), Up(u, l);
      if m == 2 * n {
        FirstGrows(l - 1, m + 1, 2 * n + 2);
      } else {
        FirstGrows(l - 1, 2 * n, m);
      }
    }
  }

  // ---------- splitting a range ----------

  /** A block by its address and level. */
  datatype Block = Block(addr: nat, level: nat)

  /** The first multiple of `size` that is not below `addr`. */
  function AlignUp(addr: nat, size: nat): (r: nat)
    requires size > 0
    ensures addr <= r < addr + size && r % size == 0
  {
    Multiple((addr + size - 1) / size, size);
    (addr + size - 1) / size * size
  }

  lemma Multiple(k: nat, size: nat)
    requires size > 0
    ensures k * size % size == 0
  {
    DivParts(0, k, size);
  }

  /** `bits::ctz` of a non-zero number. */
  function Ctz(x: nat): nat
    requires x > 0
  {
    if x % 2 == 1 then 0 else 1 + Ctz(x / 2)
  }

  /** The position of the highest set bit. */
  function Log2(x: nat): nat
    requires x > 0
  {
    if x == 1 then 0 else 1 + Log2(x / 2)
  }

  lemma {:induction false} CtzAligned(x: nat, k: nat)
    requires x > 0
    ensures k <= Ctz(x) <==> First(k, Up(x, k)) == x
    ensures k <= Ctz(x) ==> Up(x, k) > 0
  {
    if k > 0 {
      CtzAligned(if x % 2 == 0 then x / 2 else 1, k - 1);
      FirstDouble(k - 1, Up(x, k));
    }
  }

  lemma {:induction false} FirstDouble(l: nat, n: nat)
    ensures First(l + 1, n) == 2 * First(l, n)
  {
    if l > 0 { FirstDouble(l - 1, 2 * n); }
  }

  lemma {:induction false} Log2Fits(x: nat, k: nat)
    requires x > 0
    ensures k <= Log2(x) <==> First(k, 1) <= x
  {
    if k > 0 {
      FirstDouble(k - 1, 1);
      if x > 1 { Log2Fits(x / 2, k - 1); } else { FirstGrows(k - 1, 0, 1); }
    }
  }

  lemma {:induction false} ScaledBits(x: nat, k: nat)
    requires x > 0
    ensures Pow2(k) * x > 0 && Ctz(Pow2(k) * x) == k + Ctz(x) && Log2(Pow2(k) * x) == k + Log2(x)
  {
    if k > 0 {
      ScaledBits(x, k - 1);
      MulAssoc(2, Pow2(k - 1), x);
    }
  }

  lemma {:induction false} FirstPow2(l: nat)
    ensures First(l, 1) == Pow2(l)
  {
    if l > 0 {
      FirstPow2(l - 1);
      FirstDouble(l - 1, 1);
    }
  }

  /** The largest naturally aligned block at chunk `b` that ends by `e`. */
  ghost predicate Largest(b: nat, e: nat, l: nat) {
    && First(l, Up(b, l)) == b && b + First(l, 1) <= e
    && (First(l + 1, Up(b, l + 1)) != b || b + First(l + 1, 1) > e)
  }

  /** The blocks cover the chunks from `b` to `e` without gap or overlap, each as large as it can be. */
  ghost predicate Tiles(blocks: seq<Block>, b: nat, e: nat)
    decreases |blocks|
  {
    if blocks == [] then b == e
    else
      var l := blocks[0].level;
      blocks[0].addr == CHUNK * b && Largest(b, e, l) && Tiles(blocks[1..], b + First(l, 1), e)
  }

  /** Tiles so far, with `x` still to be covered. */
  ghost predicate TilesUpTo(blocks: seq<Block>, b: nat, x: nat, e: nat)
    decreases |blocks|
  {
    if blocks == [] then b == x
    else
      var l := blocks[0].level;
      blocks[0].addr == CHUNK * b && Largest(b, e, l) && TilesUpTo(blocks[1..], b + First(l, 1), x, e)
  }

  lemma {:induction false} TilesMore(blocks: seq<Block>, b: nat, x: nat, e: nat, l: nat)
    requires TilesUpTo(blocks, b, x, e) && Largest(x, e, l)
    ensures TilesUpTo(blocks + [Block(CHUNK * x, l)], b, x + First(l, 1), e)
  {
    var all := blocks + [Block(CHUNK * x, l)];
    if blocks == [] {
      assert all[1..] == [];
    } else {
      assert all[1..] == blocks[1..] + [Block(CHUNK * x, l)];
      TilesMore(blocks[1..], b + First(blocks[0].level, 1), x, e, l);
    }
  }

  lemma {:induction false} TilesAll(blocks: seq<Block>, b: nat, e: nat)
    requires TilesUpTo(blocks, b, e, e)
    ensures Tiles(blocks, b, e)
  {
    if blocks != [] { TilesAll(blocks[1..], b + First(blocks[0].level, 1), e); }
  }

  lemma LargestLevel(b: nat, e: nat)
    requires 0 < b < e
    ensures var l := if Ctz(b) < Log2(e - b) then Ctz(b) else Log2(e - b);
      Largest(b, e, l) && Up(b, l) > 0
  {
    var l := if Ctz(b) < Log2(e - b) then Ctz(b) else Log2(e - b);
    CtzAligned(b, l);
    CtzAligned(b, l + 1);
    Log2Fits(e - b, l);
    Log2Fits(e - b, l + 1);
  }

  /** `range_to_pow_2_blocks`, with the blocks in the order of the callbacks. */
  method RangeToPow2Blocks(base0: nat, length0: nat) returns (blocks: seq<Block>)
    requires base0 > 0 && AlignUp(base0, CHUNK) <= AlignDown(base0 + length0, CHUNK)
    ensures Tiles(blocks, AlignUp(base0, CHUNK) / CHUNK, (base0 + length0) / CHUNK)
  {
    hide First, Tiles, TilesUpTo, Ctz, Log2, Pow2, Largest;
    var end := AlignDown(base0 + length0, CHUNK);
    var base := AlignUp(base0, CHUNK);
    var length := end - base;
    ghost var b0, b, e := base / CHUNK, base / CHUNK, end / CHUNK;
    blocks := [];
    EmptyTiles(b, e);
    while length >= CHUNK
      invariant base == CHUNK * b && length == CHUNK * (e - b) && 0 < b <= e
      invariant TilesUpTo(blocks, b0, b, e)
      decreases length
    {
      ChunkBits(b);
      ChunkBits(e - b);
      var baseAlignBits := Ctz(base);
      var lengthAlignBits := Log2(length);
      var alignBits := if baseAlignBits < lengthAlignBits then baseAlignBits else lengthAlignBits;
      var align := Pow2(alignBits);
      LargestLevel(b, e);
      blocks := blocks + [Block(base, alignBits - 14)];
      TilesMore(blocks[..|blocks| - 1], b0, b, e, alignBits - 14);
      LevelSize(b, e, alignBits - 14);
      base, length := base + align, length - align;
      b := b + First(alignBits - 14, 1);
    }
    TilesAll(blocks, b0, e);
  }

  lemma EmptyTiles(b: nat, e: nat)
    ensures TilesUpTo([], b, b, e)
  {
  }

  lemma ChunkBits(x: nat)
    requires x > 0
    ensures Ctz(CHUNK * x) == 14 + Ctz(x) && Log2(CHUNK * x) == 14 + Log2(x)
  {
    assert Pow2(14) == CHUNK;
    ScaledBits(x, 14);
  }

  lemma LevelSize(b: nat, e: nat, l: nat)
    requires Largest(b, e, l)
    ensures Pow2(14 + l) == CHUNK * First(l, 1) && First(l, 1) > 0 && b + First(l, 1) <= e
  {
    FirstPow2(l);
    Pow2Add(14, l);
    assert Pow2(14) == CHUNK;
  }

  // ---------- the consolidating range ----------

  function Chunks(l: nat, n: nat): set<nat> { set u: nat | u < First(l, n + 1) && Up(u, l) == n }

  lemma ChunksUp(l: nat, n: nat)
    ensures forall u: nat :: u in Chunks(l, n) <==> Up(u, l) == n
  {
    forall u: nat ensures u in Chunks(l, n) <==> Up(u, l) == n { UpRange(u, l, n); }
  }

  /**
   * Every chunk obtained from the parent and not returned is in exactly one place: handed out, held
   * in the buddy allocator, or among the chunks from `x` to `e` still to be put there.
   */
  ghost predicate Accounted(owned: set<nat>, out: set<nat>, held: Blocks, x: nat, e: nat) {
    forall u: nat ::
      && (u in owned <==> u in out || Free(held, u) || x <= u < e)
      && !(u in out && Free(held, u)) && !(u in out && x <= u < e) && !(Free(held, u) && x <= u < e)
  }

  /** The chunks from `b` to `e` are of one range. */
  ghost predicate Inside(boundary: set<nat>, b: nat, e: nat) { forall u <- boundary :: !(b < u < e) }

  /** What passed between the range and its parent: blocks obtained and blocks returned. */
  datatype Call = Took(addr: nat, level: nat) | Gave(addr: nat, level: nat)

  function Span(c: Call): set<nat> { Chunks(c.level, Up(c.addr / CHUNK, c.level)) }

  /** The chunks obtained and not returned. */
  function Owned(calls: seq<Call>): set<nat> {
    if calls == [] then {}
    else
      var (before, c) := (Owned(calls[..|calls| - 1]), calls[|calls| - 1]);
      if c.Took? then before + Span(c) else before - Span(c)
  }

  /** Only what is not owned is obtained, and only what is owned is returned. */
  ghost predicate Sound(calls: seq<Call>) {
    calls == []
    || var (before, c) := (calls[..|calls| - 1], calls[|calls| - 1]);
       Sound(before) && if c.Took? then Span(c) !! Owned(before) else Span(c) <= Owned(before)
  }

  /** How often a chunk was obtained, less how often it was returned. */
  ghost function Balance(calls: seq<Call>, u: nat): int {
    if calls == [] then 0
    else
      var (before, c) := (Balance(calls[..|calls| - 1], u), calls[|calls| - 1]);
      if u !in Span(c) then before else if c.Took? then before + 1 else before - 1
  }

  lemma {:induction false} Balanced(calls: seq<Call>, u: nat)
    requires Sound(calls)
    ensures Balance(calls, u) == if u in Owned(calls) then 1 else 0
  {
    if calls != [] { Balanced(calls[..|calls| - 1], u); }
  }

  /** Conservation: what was obtained and not returned is handed out or held, once. */
  lemma Conserved(calls: seq<Call>, out: set<nat>, held: Blocks, u: nat)
    requires Sound(calls) && Accounted(Owned(calls), out, held, 0, 0)
    ensures Balance(calls, u) == (if u in out then 1 else 0) + (if Free(held, u) then 1 else 0)
  {
    Balanced(calls, u);
  }

  lemma Recorded(calls: seq<Call>, c: Call)
    requires Sound(calls) && if c.Took? then Span(c) !! Owned(calls) else Span(c) <= Owned(calls)
    ensures Sound(calls + [c])
    ensures Owned(calls + [c]) == if c.Took? then Owned(calls) + Span(c) else Owned(calls) - Span(c)
  {
    assert (calls + [c])[..|calls + [c]| - 1] == calls;
  }

  lemma SpanIs(l: nat, n: nat)
    ensures Span(Took(Addr(l, n), l)) == Span(Gave(Addr(l, n), l)) == Chunks(l, n)
  {
    UpFirst(l, n);
  }

  /** Adding block `n` frees the last chunks of a full-size block of one range. */
  ghost predicate Completes(held: Blocks, boundary: set<nat>, l: nat, n: nat) {
    var m := Up(First(l, n), |held|);
    Uncrossed(boundary, |held|, m) && forall u: nat :: Up(u, |held|) == m ==> Free(held, u) || Up(u, l) == n
  }

  /** A full-size block went back, completed by chunks from `b` to `e`. */
  ghost predicate Completed(c: Call, out: set<nat>, b: nat, e: nat, levels: nat) {
    c.Gave? && c.level == levels && Span(c) !! out && exists u: nat :: b <= u < e && u in Span(c)
  }

  /** All that happened since `calls0` is that full-size blocks went back. */
  ghost predicate Returned(calls0: seq<Call>, calls: seq<Call>, out: set<nat>, b: nat, e: nat, levels: nat) {
    calls0 <= calls && forall i :: |calls0| <= i < |calls| ==> Completed(calls[i], out, b, e, levels)
  }

  /** What an aligned parent answers: null, or a naturally aligned block of memory it did not give before. */
  predicate Offer(boundary: set<nat>, owned: set<nat>, l: nat, answer: nat, n: nat) {
    answer != 0 ==>
      answer == Addr(l, n) && InSpace(l, n) && Uncrossed(boundary, l, n) && Chunks(l, n) !! owned
  }

  /** The level of `bits::next_pow2`, in chunks. */
  function NextLevel(x: nat): nat { if x <= 1 then 0 else 1 + NextLevel((x + 1) / 2) }

  lemma {:induction false} NextLevelBound(x: nat, k: nat)
    ensures NextLevel(x) <= k <==> x <= First(k, 1)
  {
    if k == 0 || x <= 1 {
      FirstGrows(k, 0, 1);
    } else {
      FirstDouble(k - 1, 1);
      NextLevelBound((x + 1) / 2, k - 1);
    }
  }

  function Max(a: nat, b: nat): nat { if a > b then a else b }

  /** The amount `refill` wants, in chunks: as much as was requested so far, within limits. */
  function RefillSize(refill: nat, minRefill: nat, total: nat, l: nat): nat {
    var most := First(refill, 1);
    Max(Max(if total < most then total else most, First(minRefill, 1)), First(l, 1))
  }

  function AskedLevel(refill: nat, minRefill: nat, total: nat, l: nat): nat {
    NextLevel(RefillSize(refill, minRefill, total, l))
  }

  /** No less than the request, the minimum, and what was requested so far, unless that is beyond the maximum. */
  predicate Suffices(refill: nat, minRefill: nat, total: nat, l: nat, k: nat) {
    l <= k && minRefill <= k && (total <= First(k, 1) || refill <= k)
  }

  lemma AskedWhen(refill: nat, minRefill: nat, total: nat, l: nat, k: nat)
    ensures AskedLevel(refill, minRefill, total, l) <= k <==> Suffices(refill, minRefill, total, l, k)
  {
    NextLevelBound(RefillSize(refill, minRefill, total, l), k);
    LevelOrder(refill, k);
    LevelOrder(minRefill, k);
    LevelOrder(l, k);
  }

  lemma LevelOrder(j: nat, k: nat)
    ensures First(j, 1) <= First(k, 1) <==> j <= k
  {
    if j <= k {
      LevelMono(j, k);
    } else {
      LevelMono(k + 1, j);
      FirstDouble(k, 1);
      FirstGrows(k, 0, 1);
    }
  }

  lemma LeastLevel(refill: nat, minRefill: nat, total: nat, l: nat)
    ensures var r := AskedLevel(refill, minRefill, total, l);
      && Suffices(refill, minRefill, total, l, r)
      && forall k: nat :: k < r ==> !Suffices(refill, minRefill, total, l, k)
  {
    hide First, Suffices, AskedLevel;
    var r := AskedLevel(refill, minRefill, total, l);
    AskedWhen(refill, minRefill, total, l, r);
    forall k: nat | k < r ensures !Suffices(refill, minRefill, total, l, k) {
      AskedWhen(refill, minRefill, total, l, k);
    }
  }

  /** What was requested in the first `i` refills for blocks of level `l`. */
  function TotalAfter(refill: nat, minRefill: nat, l: nat, i: nat): nat {
    if i == 0 then 0
    else
      var total := TotalAfter(refill, minRefill, l, i - 1);
      total + First(AskedLevel(refill, minRefill, total, l), 1)
  }

  /** The level of the `i`th refill: the least twice, then one more each time, up to the maximum. */
  function GrownLevel(refill: nat, least: nat, i: nat): nat {
    if i == 0 then least else Max(least, if least + i - 1 < refill then least + i - 1 else refill)
  }

  lemma {:induction false} RefillsGrow(refill: nat, minRefill: nat, l: nat, i: nat)
    ensures var least, total := Max(l, minRefill), TotalAfter(refill, minRefill, l, i);
      && AskedLevel(refill, minRefill, total, l) == GrownLevel(refill, least, i)
      && (i > 0 ==> if least + i - 1 <= refill then total == First(least + i - 1, 1) else total >= First(refill, 1))
    decreases i
  {
    hide First, AskedLevel;
    var least, total := Max(l, minRefill), TotalAfter(refill, minRefill, l, i);
    if i > 0 {
      RefillsGrow(refill, minRefill, l, i - 1);
      LevelOrder(refill, least);
      if i > 1 && least + i - 1 <= refill { FirstDouble(least + i - 2, 1); }
    }
    AskedIs(refill, minRefill, total, l, GrownLevel(refill, least, i), i);
  }

  lemma AskedIs(refill: nat, minRefill: nat, total: nat, l: nat, k: nat, i: nat)
    requires var least := Max(l, minRefill);
      && k == GrownLevel(refill, least, i)
      && if i == 0 then total == 0
         else if least + i - 1 <= refill then total == First(least + i - 1, 1) else total >= First(refill, 1)
    ensures AskedLevel(refill, minRefill, total, l) == k
  {
    hide First, AskedLevel;
    var least := Max(l, minRefill);
    AskedWhen(refill, minRefill, total, l, k);
    if i > 0 && least + i - 1 <= refill { LevelOrder(least + i - 1, k); }
    if k > 0 {
      AskedWhen(refill, minRefill, total, l, k - 1);
      LevelOrder(refill, k - 1);
      if i > 0 && least + i - 1 <= refill { LevelOrder(least + i - 1, k - 1); }
    }
  }

  class LargeBuddyRange {
    const buddy: BuddyAllocator
    // The levels of REFILL_SIZE and MIN_REFILL_SIZE.
    const refill: nat
    const minRefill: nat
    // In chunks.
    var requestedTotal: nat
    // The parent's calls that moved memory, and what is with the users of this range.
    var calls: seq<Call>
    ghost var out: set<nat>

    ghost predicate Valid()
      reads this, buddy, buddy.trees
    {
      && buddy.Valid() && minRefill <= refill <= |buddy.trees|
      && Sound(calls) && Accounted(Owned(calls), out, buddy.held, 0, 0)
    }

    constructor (buddy: BuddyAllocator, refill: nat, minRefill: nat)
      requires buddy.Valid() && minRefill <= refill <= |buddy.trees| && forall u: nat :: !Free(buddy.held, u)
      ensures Valid() && this.buddy == buddy && calls == [] && out == {} && requestedTotal == 0
    {
      this.buddy, this.refill, this.minRefill := buddy, refill, minRefill;
      requestedTotal, calls, out := 0, [], {};
    }

    /** One block of a range goes to the buddy allocator; a block that overflows goes back to the parent. */
    method AddOne(addr: nat, l: nat, ghost x: nat, ghost e: nat)
      requires buddy.Valid() && addr == CHUNK * x && 0 < x && First(l, Up(x, l)) == x && x + First(l, 1) <= e <= CHUNKS
      requires l < |buddy.trees| && Uncrossed(buddy.boundary, l, Up(x, l))
      requires Sound(calls) && Accounted(Owned(calls), out, buddy.held, x, e)
      modifies this`calls, buddy, buddy.trees
      ensures buddy.Valid() && Sound(calls) && Accounted(Owned(calls), out, buddy.held, x + First(l, 1), e)
      ensures calls == if Completes(old(buddy.held), buddy.boundary, l, Up(x, l))
                       then old(calls) + [Gave(Addr(|buddy.trees|, Up(x, |buddy.trees|)), |buddy.trees|)]
                       else old(calls)
    {
      hide BuddyAllocator.Valid, Accounted, Chunks, Uncrossed, First, Up, Free, Completes, Overflowed, Sound, Owned;
      ghost var n, h0 := Up(x, l), buddy.held;
      buddy.HeldInv();
      TileBlock(Owned(calls), out, h0, x, e, l);
      var overflow, m := buddy.AddBlock(addr, l, n);
      buddy.HeldInv();
      OverflowWhen(h0, buddy.held, buddy.boundary, x, l, m, overflow);
      AfterAdd(Owned(calls), out, h0, buddy.held, x, e, l, m, overflow, buddy.boundary);
      if overflow != 0 {
        SpanIs(|buddy.trees|, m);
        Recorded(calls, Gave(overflow, |buddy.trees|));
        calls := calls + [Gave(overflow, |buddy.trees|)];
      }
    }

    /** The callbacks of `add_range`, one block after the other. */
    method AddTiles(blocks: seq<Block>, ghost b: nat, ghost e: nat)
      requires buddy.Valid() && 0 < b <= e <= CHUNKS && Tiles(blocks, b, e)
      requires e - b < First(|buddy.trees|, 1) && Inside(buddy.boundary, b, e)
      requires Sound(calls) && Accounted(Owned(calls), out, buddy.held, b, e)
      modifies this`calls, buddy, buddy.trees
      ensures buddy.Valid() && Sound(calls) && Accounted(Owned(calls), out, buddy.held, e, e)
      ensures Returned(old(calls), calls, out, b, e, |buddy.trees|)
    {
      hide Tiles, First, Up, Free, Uncrossed, Accounted, Largest, BuddyAllocator.Valid, Inside, Sound, Owned,
        Completes, Completed;
      ghost var x := b;
      assert blocks[0..] == blocks;
      for i := 0 to |blocks|
        invariant buddy.Valid() && b <= x <= e
        invariant Tiles(blocks[i..], x, e) && Sound(calls) && Accounted(Owned(calls), out, buddy.held, x, e)
        invariant Returned(old(calls), calls, out, b, e, |buddy.trees|)
      {
        TilesHead(blocks, i, x, e);
        TileFits(buddy.boundary, b, x, e, blocks[i].level, |buddy.trees|);
        buddy.HeldInv();
        if Completes(buddy.held, buddy.boundary, blocks[i].level, Up(x, blocks[i].level)) {
          GaveFull(Owned(calls), out, buddy.held, buddy.boundary, b, x, e, blocks[i].level);
        }
        AddOne(blocks[i].addr, blocks[i].level, x, e);
        x := x + First(blocks[i].level, 1);
      }
      TilesEnd(blocks, x, e);
    }

    /** `add_range`: the chunks from `b` to `e` are held, but for full-size blocks they complete. */
    method AddRange(base: nat, length: nat, ghost b: nat, ghost e: nat)
      requires buddy.Valid() && base == CHUNK * b && length == CHUNK * (e - b) && 0 < b <= e <= CHUNKS
      requires e - b < First(|buddy.trees|, 1) && Inside(buddy.boundary, b, e)
      requires Sound(calls) && Accounted(Owned(calls), out, buddy.held, b, e)
      modifies this`calls, buddy, buddy.trees
      ensures buddy.Valid() && Sound(calls) && Accounted(Owned(calls), out, buddy.held, 0, 0)
      ensures Returned(old(calls), calls, out, b, e, |buddy.trees|)
    {
      hide Tiles, First, Up, Free, Accounted, BuddyAllocator.Valid, Sound, Owned, Returned;
      WholeChunks(b, e);
      var blocks := RangeToPow2Blocks(base, length);
      AddTiles(blocks, b, e);
      NothingLeft(Owned(calls), out, buddy.held, e);
    }

    /** What `refill` asks the parent for: the least level that suffices. */
    function RefillLevel(l: nat): (r: nat)
      reads this
      ensures Suffices(refill, minRefill, requestedTotal, l, r)
      ensures forall k: nat :: k < r ==> !Suffices(refill, minRefill, requestedTotal, l, k)
    {
      LeastLevel(refill, minRefill, requestedTotal, l);
      AskedLevel(refill, minRefill, requestedTotal, l)
    }

    /**
     * `refill` from an aligned parent, which answers `answer`: block `n` of the level asked for, or null. Its
     * first part is handed out and the rest is held; nothing goes back to the parent.
     */
    method Refill(l: nat, answer: nat, ghost n: nat) returns (result: nat, ghost m: nat)
      requires Valid() && l < |buddy.trees| && Offer(buddy.boundary, Owned(calls), RefillLevel(l), answer, n)
      modifies this, buddy, buddy.trees
      ensures Valid() && result == answer
      ensures result == 0 ==> calls == old(calls) && out == old(out) && requestedTotal == old(requestedTotal)
      ensures result != 0 ==> result == Addr(l, m) && out == old(out) + Chunks(l, m) && old(out) !! Chunks(l, m)
      ensures result != 0 ==> InSpace(l, m) && Uncrossed(buddy.boundary, l, m)
      ensures result != 0 ==> calls == old(calls) + [Took(answer, old(RefillLevel(l)))]
      ensures result != 0 ==> requestedTotal == old(requestedTotal) + First(old(RefillLevel(l)), 1)
    {
      hide BuddyAllocator.Valid, Accounted, Chunks, Uncrossed, First, Up, Free, Sound, Owned, Inside, RefillSize,
        Completed;
      var k := RefillLevel(l);
      m := 0;
      if answer != 0 {
        RefillFits(refill, minRefill, requestedTotal, l, |buddy.trees|);
        requestedTotal := requestedTotal + First(k, 1);
        m := First(k - l, n);
        LevelMono(k, |buddy.trees|);
        RefillParts(Owned(calls), out, buddy.held, buddy.boundary, l, k, n);
        FirstPart(buddy.boundary, l, k, n);
        SpanIs(k, n);
        Recorded(calls, Took(answer, k));
        calls := calls + [Took(answer, k)];
        out := out + Chunks(l, m);
        ghost var taken := calls;
        AddRange(answer + Size(l), CHUNK * (First(k, 1) - First(l, 1)), First(k, n) + First(l, 1), First(k, n + 1));
        NoneReturned(taken, calls, out, l, k, n, |buddy.trees|);
      }
      result := answer;
    }

    /** The level the parent is asked for. */
    function Asked(l: nat): nat
      reads this
    {
      if l >= |buddy.trees| then l else RefillLevel(l)
    }

    /** Whether a block of level `l` is free here. */
    ghost predicate Stocked(l: nat)
      reads this, buddy
    {
      l < |buddy.trees| && exists k: nat :: Uncrossed(buddy.boundary, l, k) && WhollyFree(buddy.held, l, k)
    }

    /**
     * `alloc_range`: a block of level `l`, from the buddy allocator or from the parent, whose answer
     * to whatever it is asked would be `answer`. It was not handed out before, and is now. The parent is
     * asked exactly when no block of that size is free.
     */
    method AllocRange(l: nat, answer: nat, ghost n: nat) returns (result: nat, ghost m: nat)
      requires Valid() && Offer(buddy.boundary, Owned(calls), Asked(l), answer, n)
      modifies this, buddy, buddy.trees
      ensures Valid()
      ensures if old(Stocked(l)) then result != 0 else result == answer
      ensures result == 0 ==> out == old(out)
      ensures result != 0 ==> result == Addr(l, m) && out == old(out) + Chunks(l, m) && old(out) !! Chunks(l, m)
      ensures result != 0 ==> InSpace(l, m) && Uncrossed(buddy.boundary, l, m)
      ensures calls == if old(Stocked(l)) || answer == 0 then old(calls) else old(calls) + [Took(answer, old(Asked(l)))]
    {
      hide BuddyAllocator.Valid, Accounted, Chunks, Removal, Uncrossed, First, WhollyFree, Sound, Owned;
      m := 0;
      if l >= |buddy.trees| {
        if answer != 0 {
          Passed(Owned(calls), out, buddy.held, l, n);
          SpanIs(l, n);
          Recorded(calls, Took(answer, l));
          calls, out, m := calls + [Took(answer, l)], out + Chunks(l, n), n;
        }
        return answer, m;
      }
      ghost var h0 := buddy.held;
      result, m := buddy.RemoveBlock(l);
      if result != 0 {
        RemovalAddr(h0, buddy.held, buddy.boundary, l, result, m);
        HandedOut(Owned(calls), out, h0, buddy.held, buddy.boundary, l, result, m);
        out := out + Chunks(l, m);
        return;
      }
      result, m := Refill(l, answer, n);
    }

    /**
     * `dealloc_range`: a block that is too large goes back to the parent; any other is free again, unless
     * it completes a full-size block, which then goes back.
     */
    method DeallocRange(base: nat, l: nat, ghost n: nat)
      requires Valid() && base == Addr(l, n) && InSpace(l, n) && Uncrossed(buddy.boundary, l, n) && Chunks(l, n) <= out
      modifies this, buddy, buddy.trees
      ensures Valid() && out == old(out) - Chunks(l, n)
      ensures l >= |buddy.trees| ==> calls == old(calls) + [Gave(base, l)]
      ensures l < |buddy.trees| ==>
        calls == if Completes(old(buddy.held), buddy.boundary, l, n)
                 then old(calls) + [Gave(Addr(|buddy.trees|, Up(First(l, n), |buddy.trees|)), |buddy.trees|)]
                 else old(calls)
    {
      hide BuddyAllocator.Valid, Accounted, Chunks, Uncrossed, First, Up, Sound, Owned, Completes;
      HandedBack(Owned(calls), out, buddy.held, l, n);
      out := out - Chunks(l, n);
      if l >= |buddy.trees| {
        SpanIs(l, n);
        Recorded(calls, Gave(base, l));
        calls := calls + [Gave(base, l)];
        return;
      }
      InSpaceBound(l, n);
      AddOne(base, l, First(l, n), First(l, n + 1));
      NothingLeft(Owned(calls), out, buddy.held, First(l, n + 1));
    }
  }

  /** The allocator gives a block back exactly when the one added completes it. */
  lemma OverflowWhen(h0: Blocks, held: Blocks, boundary: set<nat>, x: nat, l: nat, m: nat, overflow: nat)
    requires Inv(h0, boundary) && Inv(held, boundary) && |held| == |h0| && First(l, Up(x, l)) == x && l < |held|
    requires overflow == 0 ==> forall u: nat :: Free(held, u) <==> Free(h0, u) || Up(u, l) == Up(x, l)
    requires overflow != 0 ==> Overflowed(h0, held, boundary, l, Up(x, l), overflow, m)
    ensures overflow != 0 <==> Completes(h0, boundary, l, Up(x, l))
    ensures overflow != 0 ==> m == Up(x, |held|) && overflow == Addr(|held|, m)
  {
    hide Inv, Uncrossed, Free, Up, First;
    var n, top := Up(x, l), |held|;
    if overflow != 0 {
      if m != Up(x, top) {
        forall u: nat | Up(u, top) == m ensures Free(h0, u) {
          SameTop(x, u, l, top);
        }
        var h := Complete(h0, boundary, top, m);
        assert false;
      }
    } else if Completes(h0, boundary, l, n) {
      var h := Complete(held, boundary, top, Up(x, top));
      assert false;
    }
  }

  /** Chunks of one block are of one larger block. */
  lemma SameTop(x: nat, u: nat, l: nat, top: nat)
    requires l <= top
    ensures Up(x, l) == Up(u, l) ==> Up(x, top) == Up(u, top)
  {
    UpUp(x, l, top - l);
    UpUp(u, l, top - l);
  }

  /** What a completed block is, for the chunks that are added. */
  lemma GaveFull(owned: set<nat>, out: set<nat>, held: Blocks, boundary: set<nat>, b: nat, x: nat, e: nat, l: nat)
    requires Accounted(owned, out, held, x, e) && b <= x && First(l, Up(x, l)) == x && x + First(l, 1) <= e
    requires Completes(held, boundary, l, Up(x, l)) && x < e
    ensures Completed(Gave(Addr(|held|, Up(x, |held|)), |held|), out, b, e, |held|)
  {
    var n, m := Up(x, l), Up(x, |held|);
    SpanIs(|held|, m);
    ChunksUp(|held|, m);
    FirstMono(l, n, 0);
    hide Up, First, Free;
    forall u: nat | u in Chunks(|held|, m) ensures u !in out { UpRange(u, l, n); }
  }

  /** What is left of a refill shares its full-size block with the part handed out. */
  lemma NoneReturned(taken: seq<Call>, calls: seq<Call>, out: set<nat>, l: nat, k: nat, n: nat, levels: nat)
    requires Returned(taken, calls, out, First(k, n) + First(l, 1), First(k, n + 1), levels)
    requires l <= k <= levels && Chunks(l, First(k - l, n)) <= out
    ensures calls == taken
  {
    hide Up, First, Chunks;
    if |calls| > |taken| {
      var c := calls[|taken|];
      assert Completed(c, out, First(k, n) + First(l, 1), First(k, n + 1), levels);
      var u: nat :| First(k, n) + First(l, 1) <= u < First(k, n + 1) && u in Span(c);
      SharedTop(u, l, k, n, levels, Up(c.addr / CHUNK, c.level));
      assert false;
    }
  }

  lemma SharedTop(u: nat, l: nat, k: nat, n: nat, levels: nat, m: nat)
    requires l <= k <= levels && First(k, n) + First(l, 1) <= u < First(k, n + 1) && u in Chunks(levels, m)
    ensures First(k, n) in Chunks(levels, m) && First(k, n) in Chunks(l, First(k - l, n))
  {
    hide Up, First, Chunks;
    UpRange(u, k, n);
    UpFirst(k, n);
    SameTop(u, First(k, n), k, levels);
    ChunksUp(levels, m);
    FirstFirst(l, k - l, n);
    UpFirst(l, First(k - l, n));
    ChunksUp(l, First(k - l, n));
  }

  /** A block leaves the buddy allocator for its user. */
  lemma HandedOut(owned: set<nat>, out: set<nat>, h0: Blocks, held: Blocks, boundary: set<nat>, l: nat, addr: nat,
                  n: nat)
    requires Accounted(owned, out, h0, 0, 0) && Removal(h0, held, boundary, l, addr, n)
    ensures Accounted(owned, out + Chunks(l, n), held, 0, 0) && out !! Chunks(l, n) && Chunks(l, n) <= owned
  {
    ChunksUp(l, n);
  }

  /** A block comes back from its user. */
  lemma HandedBack(owned: set<nat>, out: set<nat>, held: Blocks, l: nat, n: nat)
    requires Accounted(owned, out, held, 0, 0) && Chunks(l, n) <= out
    ensures Unheld(held, l, n) && Chunks(l, n) <= owned
    ensures Accounted(owned - Chunks(l, n), out - Chunks(l, n), held, 0, 0)
    ensures Accounted(owned, out - Chunks(l, n), held, First(l, n), First(l, n + 1))
    ensures First(l, Up(First(l, n), l)) == First(l, n) && Up(First(l, n), l) == n &&
      First(l, n) + First(l, 1) == First(l, n + 1)
  {
    ChunksUp(l, n);
    UpFirst(l, n);
    FirstMono(l, n, 0);
    forall u: nat ensures u in Chunks(l, n) <==> First(l, n) <= u < First(l, n + 1) { UpRange(u, l, n); }
  }

  lemma RemovalAddr(h0: Blocks, held: Blocks, boundary: set<nat>, l: nat, addr: nat, n: nat)
    requires Removal(h0, held, boundary, l, addr, n)
    ensures addr == Addr(l, n) && InSpace(l, n) && Uncrossed(boundary, l, n)
  {
  }

  lemma InSpaceBound(l: nat, n: nat)
    requires InSpace(l, n)
    ensures 0 < First(l, n) && First(l, n + 1) <= CHUNKS
  {
    FirstMono(l, 0, n);
  }

  lemma Passed(owned: set<nat>, out: set<nat>, held: Blocks, l: nat, n: nat)
    requires Accounted(owned, out, held, 0, 0) && Chunks(l, n) !! owned
    ensures Accounted(owned + Chunks(l, n), out + Chunks(l, n), held, 0, 0) && Chunks(l, n) !! out
  {
  }

  lemma RefillFits(refill: nat, minRefill: nat, total: nat, l: nat, levels: nat)
    requires minRefill <= refill <= levels && l < levels
    ensures l <= NextLevel(RefillSize(refill, minRefill, total, l)) <= levels
  {
    var size := RefillSize(refill, minRefill, total, l);
    LevelMono(refill, levels);
    LevelMono(minRefill, levels);
    LevelMono(l, levels);
    NextLevelBound(size, levels);
    if NextLevel(size) < l {
      NextLevelBound(size, l - 1);
      FirstDouble(l - 1, 1);
      FirstGrows(l - 1, 0, 1);
    }
  }

  /** The first part of a block of one range is a block of that range. */
  lemma {:induction false} FirstPart(boundary: set<nat>, l: nat, k: nat, n: nat)
    requires l <= k && InSpace(k, n) && Uncrossed(boundary, k, n)
    ensures InSpace(l, First(k - l, n)) && Uncrossed(boundary, l, First(k - l, n))
    decreases k
  {
    if l < k {
      SplitUncrossed(boundary, k - 1, n);
      FirstMono(k - 1, 2 * n + 1, 2 * n + 2);
      hide Uncrossed, First;
      FirstPart(boundary, l, k - 1, 2 * n);
      FirstStep(k - l, n);
    }
  }

  lemma FirstStep(k: nat, n: nat)
    requires k > 0
    ensures First(k, n) == First(k - 1, 2 * n)
  {
  }

  lemma {:induction false} FirstFirst(l: nat, k: nat, n: nat)
    ensures First(l, First(k, n)) == First(l + k, n)
  {
    if l > 0 {
      FirstFirst(l - 1, k, 2 * n);
      FirstTimes(k, n);
    }
  }

  lemma {:induction false} FirstTimes(k: nat, n: nat)
    ensures 2 * First(k, n) == First(k, 2 * n)
  {
    if k > 0 { FirstTimes(k - 1, 2 * n); }
  }

  /** The first part of a refill is handed out; the rest is still to be put into the buddy allocator. */
  lemma RefillParts(owned: set<nat>, out: set<nat>, held: Blocks, boundary: set<nat>, l: nat, k: nat, n: nat)
    requires l <= k && Accounted(owned, out, held, 0, 0) && InSpace(k, n) && Uncrossed(boundary, k, n) &&
      Chunks(k, n) !! owned
    ensures var m := First(k - l, n);
      var b, e := First(k, n) + First(l, 1), First(k, n + 1);
      && Addr(k, n) == Addr(l, m) && 0 < b <= e <= CHUNKS && e - b == First(k, 1) - First(l, 1) && out !! Chunks(l, m)
      && Addr(k, n) + Size(l) == CHUNK * b
      && Inside(boundary, b, e) && First(l, 1) > 0
      && Accounted(owned + Chunks(k, n), out + Chunks(l, m), held, b, e)
  {
    var m := First(k - l, n);
    FirstFirst(l, k - l, n);
    FirstMono(l, m, 0);
    FirstMono(k, n, 0);
    FirstMono(l, 0, 1);
    LevelMono(l, k);
    ChunksUp(k, n);
    ChunksUp(l, m);
    forall u: nat
      ensures u in Chunks(k, n) <==> First(k, n) <= u < First(k, n + 1)
      ensures u in Chunks(l, m) <==> First(k, n) <= u < First(k, n) + First(l, 1)
    {
      UpRange(u, k, n);
      UpRange(u, l, m);
    }
    forall u | u in boundary ensures !(First(k, n) + First(l, 1) < u < First(k, n + 1)) { UpRange(u, k, n); }
  }

  lemma TileBlock(owned: set<nat>, out: set<nat>, held: Blocks, x: nat, e: nat, l: nat)
    requires 0 < x && First(l, Up(x, l)) == x && x + First(l, 1) <= e <= CHUNKS && Accounted(owned, out, held, x, e)
    ensures Addr(l, Up(x, l)) == CHUNK * x && InSpace(l, Up(x, l)) && Unheld(held, l, Up(x, l))
  {
    var n := Up(x, l);
    FirstMono(l, n, 0);
    if n == 0 { FirstZero(l); }
    forall u: nat | Up(u, l) == n ensures !Free(held, u) { UpRange(u, l, n); }
  }

  lemma {:induction false} FirstZero(l: nat)
    ensures First(l, 0) == 0
  {
    if l > 0 { FirstZero(l - 1); }
  }

  lemma AfterAdd(owned: set<nat>, out: set<nat>, h0: Blocks, held: Blocks, x: nat, e: nat, l: nat, m: nat,
                 overflow: nat, boundary: set<nat>)
    requires Accounted(owned, out, h0, x, e) && First(l, Up(x, l)) == x && x + First(l, 1) <= e
    requires overflow == 0 ==> forall u: nat :: Free(held, u) <==> Free(h0, u) || Up(u, l) == Up(x, l)
    requires overflow != 0 ==> Overflowed(h0, held, boundary, l, Up(x, l), overflow, m)
    ensures var owned' := if overflow == 0 then owned else owned - Chunks(|held|, m);
      Accounted(owned', out, held, x + First(l, 1), e)
    ensures overflow != 0 ==> Chunks(|held|, m) <= owned
  {
    var n := Up(x, l);
    FirstMono(l, n, 0);
    ChunksUp(|held|, m);
    forall u: nat ensures Up(u, l) == n <==> x <= u < x + First(l, 1) { UpRange(u, l, n); }
  }

  lemma WholeChunks(b: nat, e: nat)
    requires b <= e
    ensures AlignUp(CHUNK * b, CHUNK) == CHUNK * b && AlignDown(CHUNK * e, CHUNK) == CHUNK * e &&
      CHUNK * b / CHUNK == b && CHUNK * e / CHUNK == e
  {
  }

  lemma TileFits(boundary: set<nat>, b: nat, x: nat, e: nat, l: nat, levels: nat)
    requires Largest(x, e, l) && b <= x <= e && e - b < First(levels, 1) && Inside(boundary, b, e)
    ensures l < levels && Uncrossed(boundary, l, Up(x, l)) && x < x + First(l, 1) <= e
  {
    var n := Up(x, l);
    FirstMono(l, n, 0);
    FirstMono(l, 0, 1);
    if l >= levels { LevelMono(levels, l); }
    forall u | u in boundary && Up(u, l) == n ensures u == First(l, n) { UpRange(u, l, n); }
  }

  lemma {:induction false} LevelMono(k: nat, l: nat)
    requires k <= l
    ensures First(k, 1) <= First(l, 1)
  {
    FirstPow2(k);
    FirstPow2(l);
    Pow2Mono(k, l);
  }

  lemma TilesHead(blocks: seq<Block>, i: nat, x: nat, e: nat)
    requires i < |blocks| && Tiles(blocks[i..], x, e)
    ensures var l := blocks[i].level;
      && blocks[i].addr == CHUNK * x && Largest(x, e, l) && First(l, Up(x, l)) == x
      && Tiles(blocks[i + 1..], x + First(l, 1), e)
  {
    assert blocks[i..][0] == blocks[i] && blocks[i..][1..] == blocks[i + 1..];
  }

  lemma TilesEnd(blocks: seq<Block>, x: nat, e: nat)
    requires Tiles(blocks[|blocks|..], x, e)
    ensures x == e
  {
    assert blocks[|blocks|..] == [];
  }

  lemma NothingLeft(owned: set<nat>, out: set<nat>, held: Blocks, e: nat)
    requires Accounted(owned, out, held, e, e)
    ensures Accounted(owned, out, held, 0, 0)
  {
  }

  // ---------- two ranges side by side ----------

  /**
   * Two free chunks, the second of which starts a separately obtained range, are never put together: there
   * is no block of two chunks to remove, although both chunks are free.
   */
  method NotMerged(levels: nat, k: nat) returns (buddy: BuddyAllocator, addr: nat)
    requires levels > 1 && InSpace(1, k)
    ensures fresh(buddy) && buddy.Valid() && buddy.boundary == {2 * k + 1}
    ensures addr == 0 && WhollyFree(buddy.held, 1, k)
  {
    hide BuddyAllocator.Valid, Free, First, Up, InSpace, Uncrossed, WhollyFree, Removal;
    buddy := new BuddyAllocator(levels, {2 * k + 1});
    AddHalf(buddy, k, 2 * k);
    AddHalf(buddy, k, 2 * k + 1);
    PairFree(buddy.held, k);
    ghost var n;
    addr, n := buddy.RemoveBlock(1);
  }

  /** One of the two chunks is added. */
  method AddHalf(buddy: BuddyAllocator, k: nat, x: nat)
    requires buddy.Valid() && |buddy.trees| > 1 && buddy.boundary == {2 * k + 1} && InSpace(1, k)
    requires (x == 2 * k || x == 2 * k + 1) && !Free(buddy.held, x)
    modifies buddy, buddy.trees
    ensures buddy.Valid() && forall u: nat :: Free(buddy.held, u) <==> Free(old(buddy.held), u) || u == x
  {
    hide BuddyAllocator.Valid, Free, Completes, Overflowed, Inv;
    HalfFacts(buddy.boundary, buddy.held, |buddy.trees|, k, x);
    hide First, Up, Uncrossed, InSpace;
    buddy.HeldInv();
    ghost var h0 := buddy.held;
    var overflow, m := buddy.AddBlock(CHUNK * x, 0, x);
    buddy.HeldInv();
    OverflowWhen(h0, buddy.held, buddy.boundary, x, 0, m, overflow);
  }

  lemma HalfFacts(boundary: set<nat>, held: Blocks, levels: nat, k: nat, x: nat)
    requires levels > 1 && boundary == {2 * k + 1} && InSpace(1, k) && !Free(held, x)
    requires x == 2 * k || x == 2 * k + 1
    ensures InSpace(0, x) && Addr(0, x) == CHUNK * x && First(0, x) == x && Uncrossed(boundary, 0, x)
    ensures Unheld(held, 0, x) && (forall u: nat :: Up(u, 0) == u)
    ensures |held| == levels ==> !Completes(held, boundary, 0, x)
  {
    hide Free;
    if |held| == levels { CrossedAbove(boundary, levels, k, x); }
    assert First(1, k + 1) == First(0, 2 * (k + 1)) == 2 * k + 2;
  }

  lemma CrossedAbove(boundary: set<nat>, levels: nat, k: nat, x: nat)
    requires levels > 0 && 2 * k + 1 in boundary && (x == 2 * k || x == 2 * k + 1)
    ensures !Uncrossed(boundary, levels, Up(First(0, x), levels))
  {
    var m := Up(k, levels - 1);
    assert Up(2 * k + 1, levels) == m && Up(2 * k, levels) == m && First(0, x) == x;
    FirstDouble(levels - 1, m);
  }

  lemma PairFree(held: Blocks, k: nat)
    requires forall u: nat :: Free(held, u) <==> u == 2 * k || u == 2 * k + 1
    ensures WhollyFree(held, 1, k) && forall n: nat :: Uncrossed({2 * k + 1}, 1, n) ==> !WhollyFree(held, 1, n)
  {
    hide Free;
    forall u: nat | Up(u, 1) == k ensures Free(held, u) { assert Up(u, 1) == u / 2; }
    forall n: nat | Uncrossed({2 * k + 1}, 1, n) ensures !WhollyFree(held, 1, n) {
      assert Up(2 * k + 1, 1) == k && First(1, k) == 2 * k;
      assert Up(2 * n, 1) == n && !Free(held, 2 * n);
    }
  }

  // ---------- users of the range ----------

  /** A block with a user. */
  datatype Lent = Lent(level: nat, number: nat)

  ghost predicate LentOk(boundary: set<nat>, b: Lent) {
    InSpace(b.level, b.number) && Uncrossed(boundary, b.level, b.number)
  }

  /** The blocks do not overlap, and together they are all that is handed out. */
  ghost predicate Lending(boundary: set<nat>, lent: seq<Lent>, out: set<nat>) {
    && (forall i :: 0 <= i < |lent| ==> LentOk(boundary, lent[i]))
    && (forall i, j :: 0 <= i < j < |lent| ==>
          Chunks(lent[i].level, lent[i].number) !! Chunks(lent[j].level, lent[j].number))
    && (forall i :: 0 <= i < |lent| ==> Chunks(lent[i].level, lent[i].number) <= out)
    && (forall u <- out :: Borrowed(lent, u))
  }

  ghost predicate Borrowed(lent: seq<Lent>, u: nat) {
    exists i :: 0 <= i < |lent| && u in Chunks(lent[i].level, lent[i].number)
  }

  /** A chunk was obtained, less returned, as often as it is with a user or held. */
  ghost predicate Settled(calls: seq<Call>, lent: seq<Lent>, held: Blocks, u: nat) {
    Balance(calls, u) == (if Borrowed(lent, u) then 1 else 0) + (if Free(held, u) then 1 else 0)
  }

  lemma LendMore(boundary: set<nat>, lent: seq<Lent>, out: set<nat>, b: Lent)
    requires Lending(boundary, lent, out) && LentOk(boundary, b) && Chunks(b.level, b.number) !! out
    ensures Lending(boundary, lent + [b], out + Chunks(b.level, b.number))
  {
    hide LentOk, Chunks;
    var lent', out' := lent + [b], out + Chunks(b.level, b.number);
    forall u | u in out' ensures Borrowed(lent', u) {
      if u in out {
        assert Borrowed(lent, u);
        var i :| 0 <= i < |lent| && u in Chunks(lent[i].level, lent[i].number);
        assert lent'[i] == lent[i];
      } else {
        assert lent'[|lent|] == b;
      }
    }
  }

  lemma LendLess(boundary: set<nat>, lent: seq<Lent>, out: set<nat>, i: nat)
    requires Lending(boundary, lent, out) && i < |lent|
    ensures Lending(boundary, lent[..i] + lent[i + 1..], out - Chunks(lent[i].level, lent[i].number))
  {
    hide LentOk, Chunks;
    var lent', out' := lent[..i] + lent[i + 1..], out - Chunks(lent[i].level, lent[i].number);
    assert forall k :: 0 <= k < |lent'| ==> lent'[k] == lent[if k < i then k else k + 1];
    forall u | u in out' ensures Borrowed(lent', u) {
      assert Borrowed(lent, u);
      var k :| 0 <= k < |lent| && u in Chunks(lent[k].level, lent[k].number);
      assert lent'[if k < i then k else k - 1] == lent[k];
    }
  }

  /** A block is asked for; the parent would give block `n` of what it is asked for, if that is free to give. */
  method Borrow(range: LargeBuddyRange, lent: seq<Lent>, l: nat, n: nat) returns (lent': seq<Lent>)
    requires range.Valid() && Lending(range.buddy.boundary, lent, range.out)
    modifies range, range.buddy, range.buddy.trees
    ensures range.Valid() && Lending(range.buddy.boundary, lent', range.out)
    ensures lent' == lent || exists m: nat :: lent' == lent + [Lent(l, m)]
    ensures old(range.Stocked(l)) ==> lent' != lent
  {
    hide LargeBuddyRange.Valid, Uncrossed, Owned, Chunks, First, Up, Lending, InSpace, LargeBuddyRange.Stocked;
    var answer := Addr(range.Asked(l), n);
    if !Offer(range.buddy.boundary, Owned(range.calls), range.Asked(l), answer, n) {
      answer := 0;
    }
    var result, m := range.AllocRange(l, answer, n);
    lent' := lent;
    if result != 0 {
      UpFirst(l, m);
      LendMore(range.buddy.boundary, lent, old(range.out), Lent(l, m));
      lent' := lent + [Lent(l, Up(result / CHUNK, l))];
    }
  }

  /** What was handed out can be given back. */
  method GiveBack(range: LargeBuddyRange, lent: seq<Lent>, i: nat) returns (lent': seq<Lent>)
    requires range.Valid() && Lending(range.buddy.boundary, lent, range.out) && i < |lent|
    modifies range, range.buddy, range.buddy.trees
    ensures range.Valid() && Lending(range.buddy.boundary, lent', range.out) && lent' == lent[..i] + lent[i + 1..]
    ensures range.out == old(range.out) - Chunks(lent[i].level, lent[i].number)
  {
    hide LargeBuddyRange.Valid, Uncrossed, Owned, Chunks, First, Up, InSpace, Completes;
    assert LentOk(range.buddy.boundary, lent[i]);
    LendLess(range.buddy.boundary, lent, range.out, i);
    hide Lending;
    range.DeallocRange(Addr(lent[i].level, lent[i].number), lent[i].level, lent[i].number);
    lent' := lent[..i] + lent[i + 1..];
  }

  /** What a user does: asks for a block, with what the parent would give, or gives its `i`th one back. */
  datatype Use = Ask(level: nat, offer: nat) | Return(i: nat)

  /**
   * Any run of allocations and deallocations, with any parent: blocks with users never overlap, and every
   * chunk is with the parent, with one user, or held, as often as it was obtained less returned.
   */
  method Serve(range: LargeBuddyRange, lent0: seq<Lent>, uses: seq<Use>) returns (lent: seq<Lent>)
    requires range.Valid() && Lending(range.buddy.boundary, lent0, range.out)
    modifies range, range.buddy, range.buddy.trees
    ensures range.Valid() && Lending(range.buddy.boundary, lent, range.out)
    ensures forall u: nat :: Settled(range.calls, lent, range.buddy.held, u)
  {
    hide LargeBuddyRange.Valid, Lending, Settled;
    lent := lent0;
    for k := 0 to |uses|
      invariant range.Valid() && Lending(range.buddy.boundary, lent, range.out)
    {
      match uses[k]
      case Ask(l, offer) => lent := Borrow(range, lent, l, offer);
      case Return(i) => if i < |lent| { lent := GiveBack(range, lent, i); }
    }
    ServedAll(range, lent);
  }

  lemma ServedAll(range: LargeBuddyRange, lent: seq<Lent>)
    requires range.Valid() && Lending(range.buddy.boundary, lent, range.out)
    ensures forall u: nat :: Settled(range.calls, lent, range.buddy.held, u)
  {
    hide Balance, Free, LentOk, Chunks, Owned, Sound, BuddyAllocator.Valid;
    forall u: nat ensures Settled(range.calls, lent, range.buddy.held, u) {
      assert Borrowed(lent, u) <==> u in range.out;
      Conserved(range.calls, range.out, range.buddy.held, u);
    }
  }

  /** After a run everything can be given back, and then nothing is handed out. */
  method GiveAllBack(range: LargeBuddyRange, lent0: seq<Lent>)
    requires range.Valid() && Lending(range.buddy.boundary, lent0, range.out)
    modifies range, range.buddy, range.buddy.trees
    ensures range.Valid() && range.out == {}
    ensures forall u: nat :: Free(range.buddy.held, u) <==> Balance(range.calls, u) == 1
  {
    hide LargeBuddyRange.Valid, Free, Borrowed, Balance, LentOk, Chunks;
    var lent := lent0;
    while lent != []
      invariant range.Valid() && Lending(range.buddy.boundary, lent, range.out)
      decreases |lent|
    {
      lent := GiveBack(range, lent, |lent| - 1);
    }
    ServedAll(range, lent);
    NothingLent(range.buddy.boundary, range.out);
    forall u: nat ensures Free(range.buddy.held, u) <==> Balance(range.calls, u) == 1 {
      NotBorrowed(u);
      assert Settled(range.calls, lent, range.buddy.held, u);
    }
  }

  lemma NothingLent(boundary: set<nat>, out: set<nat>)
    requires Lending(boundary, [], out)
    ensures out == {}
  {
    hide Borrowed, LentOk;
    forall u: nat ensures !Borrowed([], u) { NotBorrowed(u); }
  }

  lemma NotBorrowed(u: nat)
    ensures !Borrowed([], u)
  {
  }
}
