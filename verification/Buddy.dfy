/** snmalloc's buddy allocator: one red-black tree of block addresses for each block size. */
module Buddy {
  import opened Powers
  import opened BuddyBlocks
  import opened RedBlackTree
  import opened RedBlackStore
  import opened RedBlack

  // MIN_CHUNK_SIZE, and how many chunks the address space has.
  const CHUNK: nat := 16384
  const CHUNKS: nat := 0x4_0000_0000_0000

  /** The address and size, in bytes, of a block. */
  function Addr(l: nat, n: nat): nat { CHUNK * First(l, n) }

  function Size(l: nat): nat { Addr(l, 1) }

  // `BuddyChunkRep`: `addr ^ size` and `addr & ~(size - 1)` on addresses aligned to `size`.
  function BuddyOf(addr: nat, size: nat): int
    requires size > 0
  {
    if (addr / size) % 2 == 0 then addr + size else addr - size
  }

  function AlignDown(addr: nat, size: nat): nat
    requires size > 0
  {
    addr - addr % size
  }

  /** The block is not the null address and ends inside the address space. */
  predicate InSpace(l: nat, n: nat) { n > 0 && First(l, n + 1) <= CHUNKS }

  ghost function Addrs(l: nat, held: set<nat>): set<nat> { set n | n in held :: Addr(l, n) }

  // ---------- address arithmetic ----------

  lemma {:induction false} FirstMul(l: nat, n: nat)
    ensures First(l, n) == n * First(l, 1) && First(l, 1) > 0
  {
    if l > 0 {
      FirstMul(l - 1, 2 * n);
      FirstMul(l - 1, 2);
      var f := First(l - 1, 1);
      assert (2 * n) * f == n * (2 * f) by { MulAssoc(2, n, f); MulAssoc(n, 2, f); }
    }
  }

  lemma {:induction false} FirstAdd(l: nat, a: nat, b: nat)
    ensures First(l, a + b) == First(l, a) + First(l, b)
  {
    if l > 0 { FirstAdd(l - 1, 2 * a, 2 * b); }
  }

  lemma {:induction false} FirstGrows(l: nat, a: nat, b: nat)
    requires a < b
    ensures First(l, a) < First(l, b)
  {
    if l > 0 { FirstGrows(l - 1, 2 * a, 2 * b); }
  }

  lemma FirstMono(l: nat, a: nat, b: nat)
    ensures a < b ==> First(l, a) < First(l, b)
    ensures First(l, a) == First(l, b) ==> a == b
    ensures First(l, a + 1) == First(l, a) + First(l, 1)
  {
    FirstAdd(l, a, 1);
    if a < b { FirstGrows(l, a, b); }
    if b < a { FirstGrows(l, b, a); }
  }

  lemma AddrMul(l: nat, n: nat)
    ensures Addr(l, n) == n * Size(l) && Size(l) > 0 && Addr(l, n) / Size(l) == n
  {
    FirstMul(l, n);
    MulAssoc(CHUNK, n, First(l, 1));
    MulAssoc(n, CHUNK, First(l, 1));
    DivParts(0, n, Size(l));
  }

  lemma BuddyAddr(l: nat, n: nat)
    requires n > 0
    ensures Size(l) > 0 && BuddyOf(Addr(l, n), Size(l)) == Addr(l, Sibling(n))
  {
    AddrMul(l, n);
    FirstMono(l, n, 0);
    FirstMono(l, n - 1, 0);
  }

  lemma ParentAddr(l: nat, n: nat)
    ensures Size(l + 1) > 0 && AlignDown(Addr(l, n), Size(l + 1)) == Addr(l + 1, n / 2)
  {
    AddrMul(l + 1, n / 2);
    AddrMul(l, 1);
    FirstMono(l, 2 * (n / 2), 0);
    FirstMono(l, 1, 0);
    var low := if n % 2 == 0 then 0 else Size(l);
    assert Addr(l, n) == low + (n / 2) * Size(l + 1);
    DivParts(low, n / 2, Size(l + 1));
  }

  /** The boundary bit looked at belongs to the larger of the two buddies. */
  predicate CanConsolidate(boundary: set<nat>, addr: nat, buddy: nat) {
    (if addr > buddy then addr else buddy) / CHUNK !in boundary
  }

  lemma ConsolidateMeans(boundary: set<nat>, l: nat, n: nat)
    requires n > 0
    ensures CanConsolidate(boundary, Addr(l, n), Addr(l, Sibling(n))) == Mergeable(boundary, l, n)
  {
    FirstMono(l, n, n + 1);
    FirstMono(l, n - 1, n);
  }

  lemma AddrIn(l: nat, held: set<nat>, n: nat)
    ensures Addr(l, n) in Addrs(l, held) <==> n in held
    ensures Addrs(l, held + {n}) == Addrs(l, held) + {Addr(l, n)}
    ensures Addrs(l, held - {n}) == Addrs(l, held) - {Addr(l, n)}
  {
    hide First;
    forall m: nat ensures Addr(l, m) == Addr(l, n) ==> m == n { FirstMono(l, m, n); }
    assert forall m <- held :: Addr(l, m) in Addrs(l, held);
    assert forall m <- held + {n} :: Addr(l, m) in Addrs(l, held) + {Addr(l, n)};
  }

  lemma SpaceBound(l: nat, n: nat)
    requires InSpace(l, n)
    ensures 0 < Addr(l, n) < LIMIT && n < CHUNKS
  {
    FirstMono(l, n, 0);
    FirstMono(l, 0, n);
    FirstMul(l, n);
    FirstMul(l, 0);
    MulMono(1, First(l, 1), n);
  }

  // ---------- set sizes ----------

  lemma {:induction false} SmallSet(s: set<nat>, k: nat)
    requires forall x <- s :: x < k
    ensures |s| <= k
  {
    if k == 0 {
      assert s == {};
    } else {
      SmallSet(s - {k - 1}, k - 1);
    }
  }

  lemma {:induction false} ImageSize(l: nat, held: set<nat>)
    ensures |Addrs(l, held)| <= |held|
  {
    if held == {} {
      assert Addrs(l, held) == {};
    } else {
      var n :| n in held;
      ImageSize(l, held - {n});
      AddrIn(l, held - {n}, n);
      assert held == held - {n} + {n};
    }
  }

  /** A tree of block addresses is small enough for its paths to fit. */
  lemma FewKeys(l: nat, held: set<nat>)
    requires AllInSpace(l, held)
    ensures |Addrs(l, held)| < Pow2(62) < Pow2(63)
  {
    forall n | n in held ensures n < CHUNKS { SpaceBound(l, n); }
    SmallSet(held, CHUNKS);
    ImageSize(l, held);
    assert Pow2(50) == CHUNKS by {
      assert Pow2(10) == 1024;
      Pow2Add(10, 10);
      Pow2Add(20, 20);
      Pow2Add(40, 10);
    }
    Pow2Mono(51, 62);
  }

  /** Nothing is stored between a block and its buddy, so the buddy's place is the block's place. */
  lemma Gap(c: Context, l: nat, held: set<nat>, n: nat)
    requires OrderedContext(c) && ContextKeys(c) <= Addrs(l, held) && Near(c, Addr(l, Sibling(n)))
    requires n !in held && InSpace(l, n)
    ensures Lo(c) < Addr(l, n) < Hi(c)
  {
    SpaceBound(l, n);
    BoundsAreKeys(c);
    ContextKeysOutside(c);
    if Lo(c) != 0 {
      var m :| m in held && Lo(c) == Addr(l, m);
      Between(l, m, n);
    }
    if Hi(c) != LIMIT {
      var m :| m in held && Hi(c) == Addr(l, m);
      Between(l, m, n);
    }
  }

  lemma Between(l: nat, m: nat, n: nat)
    requires m != n && n > 0
    ensures Addr(l, m) < Addr(l, Sibling(n)) ==> Addr(l, m) < Addr(l, n)
    ensures Addr(l, m) > Addr(l, Sibling(n)) ==> Addr(l, m) > Addr(l, n)
  {
    FirstMono(l, m, n);
    FirstMono(l, n, m);
    FirstMono(l, m, Sibling(n));
    FirstMono(l, Sibling(n), m);
  }

  /** One level: its tree holds exactly the addresses of its blocks. */
  ghost predicate LevelOk(tree: RBTree, l: nat, held: set<nat>)
    reads tree
  {
    tree.Valid() && Keys(tree.tree) == Addrs(l, held) && AllInSpace(l, held)
  }

  ghost predicate AllInSpace(l: nat, held: set<nat>) { forall n <- held :: InSpace(l, n) }

  lemma LevelSmall(tree: RBTree, l: nat, held: set<nat>)
    requires LevelOk(tree, l, held)
    ensures Small(tree.tree) && tree.Valid() && Keys(tree.tree) == Addrs(l, held) && AllInSpace(l, held)
  {
    FewKeys(l, held);
  }

  lemma LevelWithout(tree: RBTree, l: nat, held: set<nat>, n: nat)
    requires tree.Valid() && Keys(tree.tree) == Addrs(l, held) - {Addr(l, n)} && AllInSpace(l, held)
    ensures LevelOk(tree, l, held - {n})
  {
    AddrIn(l, held, n);
  }

  lemma LevelWith(tree: RBTree, l: nat, held: set<nat>, n: nat)
    requires tree.Valid() && Keys(tree.tree) == Addrs(l, held) + {Addr(l, n)} && AllInSpace(l, held) && InSpace(l, n)
    ensures LevelOk(tree, l, held + {n})
  {
    AddrIn(l, held, n);
  }

  lemma ContextAddrs(c: Context, t: Tree, keys: set<nat>)
    requires Keys(Plug(c, t)) == keys
    ensures ContextKeys(c) <= keys && Keys(t) <= keys
  {
    PlugKeys(c, t);
  }

  class BuddyAllocator {
    const trees: seq<RBTree>
    const boundary: set<nat>
    // All trees at or above this index are empty.
    var emptyAtOrAbove: nat
    ghost var held: Blocks

    ghost predicate Valid()
      reads this, trees
    {
      && |held| == |trees|
      && (forall i: nat, j: nat :: i < j < |trees| ==> trees[i] != trees[j])
      && (forall l: nat :: l < |trees| ==> LevelOk(trees[l], l, held[l]))
      && Inv(held, boundary)
      && (forall l: nat :: emptyAtOrAbove <= l < |trees| ==> held[l] == {})
    }

    lemma HeldInv()
      requires Valid()
      ensures |held| == |trees| && Inv(held, boundary)
    {
    }

    constructor (levels: nat, boundary: set<nat>)
      ensures Valid() && |trees| == levels && this.boundary == boundary
      ensures fresh(trees) && forall u: nat :: !Free(held, u)
    {
      var ts: seq<RBTree> := [];
      for i := 0 to levels
        invariant |ts| == i && fresh(ts)
        invariant forall j: nat, k: nat :: j < k < i ==> ts[j] != ts[k]
        invariant forall j: nat :: j < i ==> ts[j].Valid() && Keys(ts[j].tree) == {}
      {
        var t := new RBTree();
        ts := ts + [t];
      }
      trees := ts;
      this.boundary := boundary;
      emptyAtOrAbove := 0;
      held := seq(levels, _ => {});
    }

    /** Takes block `n` of level `l`, found at the end of `path`, out of its tree. */
    method Take(l: nat, path: seq<Step>, ghost n: nat, ghost c: Context, ghost t: Tree)
      requires Valid() && l < |trees| && n in held[l] && t.Node? && t.key == Addr(l, n)
      requires Rep(trees[l].m, c, t) && Plug(c, t) == trees[l].tree && path == PathTo(c)
      modifies this`held, trees[l]
      ensures Valid() && held == old(held)[l := old(held)[l] - {n}]
      ensures Removal(old(held), held, boundary, l, Addr(l, n), n)
    {
      hide LevelOk, Removal, Inv, Addrs, Rep, Small, Addr, Plug, Keys, InSpace;
      LevelSmall(trees[l], l, held[l]);
      TakenOut(held, boundary, l, n);
      trees[l].RemovePath(path, c, t);
      LevelWithout(trees[l], l, held[l], n);
      held := held[l := held[l] - {n}];
    }

    /** Puts block `n` of level `l` at the null link `path` leads to. */
    method Put(l: nat, addr: nat, path: seq<Step>, ghost n: nat, ghost c: Context)
      requires Valid() && l < |trees| && addr == Addr(l, n) && InSpace(l, n) && l < emptyAtOrAbove
      requires Unheld(held, l, n) && Uncrossed(boundary, l, n) && (Sibling(n) in held[l] ==> !Mergeable(boundary, l, n))
      requires Rep(trees[l].m, c, Nil) && Plug(c, Nil) == trees[l].tree && path == PathTo(c) && Lo(c) < addr < Hi(c)
      modifies this`held, trees[l]
      ensures Valid() && held == old(held)[l := old(held)[l] + {n}]
      ensures forall u: nat :: Free(held, u) <==> Free(old(held), u) || Up(u, l) == n
    {
      hide LevelOk, Inv, Addrs, Rep, Small, Addr, Plug, Free, Up, InSpace;
      LevelSmall(trees[l], l, held[l]);
      Added(held, boundary, l, n);
      trees[l].InsertPath(path, addr, c);
      LevelWith(trees[l], l, held[l], n);
      held := held[l := held[l] + {n}];
    }

    /** Looks for the buddy of block `n` in its tree. */
    method FindBuddy(l: nat, addr: nat, ghost n: nat)
      returns (found: bool, buddy: nat, path: seq<Step>, ghost c: Context, ghost t: Tree)
      requires Valid() && l < |trees| && addr == Addr(l, n) && InSpace(l, n) && n !in held[l]
      ensures found <==> Sibling(n) in held[l]
      ensures buddy == Addr(l, Sibling(n)) && Rep(trees[l].m, c, t) && Plug(c, t) == trees[l].tree && path == PathTo(c)
      ensures if found then t.Node? && t.key == Addr(l, Sibling(n)) else t.Nil?
      ensures Lo(c) < addr < Hi(c)
    {
      BuddyAddr(l, n);
      buddy := BuddyOf(addr, Size(l));
      var tree := trees[l];
      LevelSmall(tree, l, held[l]);
      AddrIn(l, held[l], Sibling(n));
      found, path, c, t := tree.Find([Step(Root, false)], buddy, Top, tree.tree);
      ContextAddrs(c, t, Keys(tree.tree));
      Gap(c, l, held[l], n);
    }

    /** From the buddy, which may not be merged with, on to the block's own place. */
    method FindOwn(l: nat, addr: nat, path0: seq<Step>, ghost n: nat, ghost c0: Context, ghost t0: Tree)
      returns (path: seq<Step>, ghost c: Context)
      requires Valid() && l < |trees| && addr == Addr(l, n) && n !in held[l] && Lo(c0) < addr < Hi(c0) && InSpace(l, n)
      requires Rep(trees[l].m, c0, t0) && Plug(c0, t0) == trees[l].tree && path0 == PathTo(c0)
      ensures Rep(trees[l].m, c, Nil) && Plug(c, Nil) == trees[l].tree && path == PathTo(c) && Lo(c) < addr < Hi(c)
    {
      var tree := trees[l];
      LevelSmall(tree, l, held[l]);
      AddrIn(l, held[l], n);
      SpaceBound(l, n);
      ContextAddrs(c0, t0, Keys(tree.tree));
      var found;
      ghost var t;
      found, path, c, t := tree.Find(path0, addr, c0, t0);
    }

    /**
     * `add_block`: block `n` of level `l` becomes free, merged with its buddies as far as that is
     * allowed. The result is null, or the block of level `|trees|` that was completed.
     */
    method AddBlock(addr: nat, l: nat, ghost n: nat) returns (overflow: nat, ghost m: nat)
      requires Valid() && l < |trees| && addr == Addr(l, n) && InSpace(l, n)
      requires Unheld(held, l, n) && Uncrossed(boundary, l, n)
      modifies this, trees
      ensures Valid()
      ensures overflow == 0 ==> forall u: nat :: Free(held, u) <==> Free(old(held), u) || Up(u, l) == n
      ensures overflow != 0 ==> Overflowed(old(held), held, boundary, l, n, overflow, m)
      ensures Sibling(n) !in old(held)[l] ==> overflow == 0 && held == old(held)[l := old(held)[l] + {n}]
      decreases |trees| - l
    {
      NotHeld(held, l, n);
      hide Inv, Addrs, Rep, Free, Uncrossed, Plug, Up, First, Disjoint;
      emptyAtOrAbove := if emptyAtOrAbove > l + 1 then emptyAtOrAbove else l + 1;
      var found, buddy, path, c, t := FindBuddy(l, addr, n);
      ConsolidateMeans(boundary, l, n);
      if found {
        if CanConsolidate(boundary, addr, buddy) {
          overflow, m := Merge(addr, l, path, n, c, t);
          return;
        }
        path, c := FindOwn(l, addr, path, n, c, t);
      }
      Put(l, addr, path, n, c);
      overflow, m := 0, 0;
    }

    /** Block `n` and its buddy become one block of the next level. */
    method Merge(addr: nat, l: nat, path: seq<Step>, ghost n: nat, ghost c: Context, ghost t: Tree)
      returns (overflow: nat, ghost m: nat)
      requires Valid() && l < |trees| && addr == Addr(l, n) && InSpace(l, n)
      requires Unheld(held, l, n) && Uncrossed(boundary, l, n) && Mergeable(boundary, l, n) && Sibling(n) in held[l]
      requires t.Node? && t.key == Addr(l, Sibling(n))
      requires Rep(trees[l].m, c, t) && Plug(c, t) == trees[l].tree && path == PathTo(c)
      modifies this, trees
      ensures Valid()
      ensures overflow == 0 ==> forall u: nat :: Free(held, u) <==> Free(old(held), u) || Up(u, l) == n
      ensures overflow != 0 ==> Overflowed(old(held), held, boundary, l, n, overflow, m)
      decreases |trees| - l, 0
    {
      ghost var h0 := held;
      MergedBlock(h0, boundary, l, n);
      Take(l, path, Sibling(n), c, t);
      MergedUnheld(h0, held, l, n);
      ParentAddr(l, n);
      var up := AlignDown(addr, Size(l + 1));
      if l + 1 == |trees| {
        SpaceBound(l + 1, n / 2);
        return up, n / 2;
      }
      overflow, m := AddBlock(up, l + 1, n / 2);
    }

    /**
     * `remove_block`: takes a block of level `l` out, splitting a larger one if need be. The result is
     * null exactly when no block of that size, within one range, is wholly free.
     */
    method RemoveBlock(l: nat) returns (addr: nat, ghost n: nat)
      requires Valid() && l < |trees|
      modifies this, trees
      ensures Valid()
      ensures addr == 0 ==> held == old(held) && forall k: nat :: l <= k < |trees| ==> held[k] == {}
      ensures addr != 0 ==> Removal(old(held), held, boundary, l, addr, n)
      ensures addr == 0 <==> forall n: nat :: Uncrossed(boundary, l, n) ==> !WhollyFree(old(held), l, n)
      decreases |trees| - l
    {
      hide Inv, WhollyFree, Uncrossed, Free, Up, First, LevelOk, Addr, InSpace, Unheld;
      NoneAbove(held, boundary, l);
      if l >= emptyAtOrAbove {
        return 0, 0;
      }
      addr, n := TakeMin(l);
      if addr != 0 {
        return;
      }
      if l + 1 == |trees| {
        return 0, 0;
      }
      ghost var h0 := held;
      ghost var m;
      addr, m := RemoveBlock(l + 1);
      if addr == 0 {
        emptyAtOrAbove := l;
        return 0, 0;
      }
      n := SplitBlock(l, addr, m, h0);
    }

    /** The smallest block of level `l`, if there is one. */
    method TakeMin(l: nat) returns (addr: nat, ghost n: nat)
      requires Valid() && l < |trees|
      modifies this`held, trees[l]
      ensures Valid()
      ensures addr == 0 ==> held == old(held) && held[l] == {}
      ensures addr != 0 ==> Removal(old(held), held, boundary, l, addr, n)
    {
      hide LevelOk, Inv, Addrs, Rep, Small, Addr, Plug, Free, Up, InSpace, Removal, Keys;
      LevelSmall(trees[l], l, held[l]);
      addr := trees[l].RemoveMin();
      n := 0;
      if addr == 0 {
        EmptyLevel(trees[l], l, held[l]);
      } else {
        n := NumberOf(l, held[l], addr);
        TakenOut(held, boundary, l, n);
        LevelWithout(trees[l], l, held[l], n);
        held := held[l := held[l] - {n}];
      }
    }

    /** The first half of block `m` of level `l + 1` is handed out, the second half is kept. */
    method SplitBlock(l: nat, addr: nat, ghost m: nat, ghost h0: Blocks) returns (ghost n: nat)
      requires Valid() && l + 1 < |trees| && Removal(h0, held, boundary, l + 1, addr, m) && held[l] == {}
      modifies this, trees
      ensures Valid() && Removal(h0, held, boundary, l, addr, n)
    {
      ghost var h1 := held;
      SplitUncrossed(boundary, l, m);
      SplitUnheld(h1, l, m);
      FirstMono(l, 2 * m, 0);
      FirstMono(l, 2 * m + 1, 0);
      var second := addr + Size(l);
      assert Sibling(2 * m + 1) !in held[l];
      hide Inv, Addrs, Uncrossed, WhollyFree;
      var overflow, _ := AddBlock(second, l, 2 * m + 1);
      n := 2 * m;
      SplitRemoval(h0, h1, held, l, m);
    }
  }

  /** `addr` is block `n` of level `l`: wholly free before, and exactly what is missing afterwards. */
  ghost predicate Removal(h0: Blocks, held: Blocks, boundary: set<nat>, l: nat, addr: nat, n: nat) {
    && addr == Addr(l, n) && InSpace(l, n) && Uncrossed(boundary, l, n) && WhollyFree(h0, l, n) && Unheld(held, l, n)
    && (forall u: nat :: Free(held, u) <==> Free(h0, u) && Up(u, l) != n)
    && |held| == |h0| && forall k: nat :: k < l < |h0| ==> held[k] == h0[k]
  }

  /** The block `m` of the level above all: free before or added, and no longer held. */
  ghost predicate Overflowed(h0: Blocks, held: Blocks, boundary: set<nat>, l: nat, n: nat, overflow: nat, m: nat) {
    && overflow == Addr(|held|, m) && InSpace(|held|, m) && Uncrossed(boundary, |held|, m) && Unheld(held, |held|, m)
    && forall u: nat :: Free(held, u) || Up(u, |held|) == m <==> Free(h0, u) || Up(u, l) == n
  }

  lemma NotHeld(held: Blocks, l: nat, n: nat)
    requires l < |held| && Unheld(held, l, n)
    ensures n !in held[l]
  {
    UpFirst(l, n);
    assert Up(First(l, n), l) in held[l] ==> Free(held, First(l, n));
  }

  lemma MergedBlock(held: Blocks, boundary: set<nat>, l: nat, n: nat)
    requires Inv(held, boundary) && l < |held| && Sibling(n) in held[l] && Uncrossed(boundary, l, n) &&
      Mergeable(boundary, l, n)
    requires InSpace(l, n) && InSpace(l, Sibling(n))
    ensures Uncrossed(boundary, l + 1, n / 2) && InSpace(l + 1, n / 2)
  {
    MergeUncrossed(boundary, l, n);
  }

  lemma MergedUnheld(h0: Blocks, held: Blocks, l: nat, n: nat)
    requires Unheld(h0, l, n) && Unheld(held, l, Sibling(n)) && n > 0
    requires forall u: nat :: Free(held, u) <==> Free(h0, u) && Up(u, l) != Sibling(n)
    requires forall u: nat :: Up(u, l) == Sibling(n) ==> Free(h0, u)
    ensures Unheld(held, l + 1, n / 2)
    ensures forall u: nat :: Free(held, u) || Up(u, l + 1) == n / 2 <==> Free(h0, u) || Up(u, l) == n
  {
    forall u: nat
      ensures Up(u, l + 1) == n / 2 <==> Up(u, l) == n || Up(u, l) == Sibling(n)
    {
      UpStep(u, l);
    }
  }

  lemma EmptyLevel(tree: RBTree, l: nat, held: set<nat>)
    requires Addrs(l, held) == {} && tree.Valid() && Keys(tree.tree) == {}
    ensures held == {} && LevelOk(tree, l, held)
  {
    assert forall n <- held :: Addr(l, n) in Addrs(l, held);
  }

  lemma TakenOut(held: Blocks, boundary: set<nat>, l: nat, n: nat)
    requires Inv(held, boundary) && l < |held| && n in held[l] && AllInSpace(l, held[l])
    ensures var held' := held[l := held[l] - {n}];
      Inv(held', boundary) && Removal(held, held', boundary, l, Addr(l, n), n)
  {
    Removed(held, boundary, l, n);
  }

  lemma SplitUnheld(held: Blocks, l: nat, m: nat)
    requires Unheld(held, l + 1, m)
    ensures Unheld(held, l, 2 * m + 1)
  {
    forall u: nat | Up(u, l) == 2 * m + 1 ensures !Free(held, u) { UpStep(u, l); }
  }

  lemma SplitRemoval(h0: Blocks, h1: Blocks, held: Blocks, l: nat, m: nat)
    requires forall u: nat :: Free(h1, u) <==> Free(h0, u) && Up(u, l + 1) != m
    requires forall u: nat :: Free(held, u) <==> Free(h1, u) || Up(u, l) == 2 * m + 1
    requires WhollyFree(h0, l + 1, m)
    ensures forall u: nat :: Free(held, u) <==> Free(h0, u) && Up(u, l) != 2 * m
    ensures WhollyFree(h0, l, 2 * m) && Unheld(held, l, 2 * m)
  {
    HalvesFree(h0, l, m);
    forall u: nat ensures Free(held, u) <==> Free(h0, u) && Up(u, l) != 2 * m { UpStep(u, l); }
  }

  lemma NumberOf(l: nat, held: set<nat>, addr: nat) returns (n: nat)
    requires addr in Addrs(l, held)
    ensures n in held && addr == Addr(l, n)
  {
    n :| n in held && addr == Addr(l, n);
  }

  /** When no block of level `l` or above is held, none is free either. */
  lemma NoneAbove(held: Blocks, boundary: set<nat>, l: nat)
    requires Inv(held, boundary)
    ensures (forall k: nat :: l <= k < |held| ==> held[k] == {}) ==>
      forall n: nat :: Uncrossed(boundary, l, n) ==> !WhollyFree(held, l, n)
  {
    if forall k: nat :: l <= k < |held| ==> held[k] == {} {
      forall n: nat | Uncrossed(boundary, l, n) ensures !WhollyFree(held, l, n) {
        if WhollyFree(held, l, n) {
          var h := Complete(held, boundary, l, n);
          assert false;
        }
      }
    }
  }
}
