/**
 * The blocks a buddy allocator holds, as numbers: block `n` of level `l` is the `n`th block of
 * 2^l chunks. Which chunks are free, which blocks may be merged, and why keeping buddies merged
 * makes the search for a free block complete.
 */
module BuddyBlocks {
  /** The blocks held at each level. */
  type Blocks = seq<set<nat>>

  /** The block `l` levels up from `n`: for a chunk, the level `l` block it lies in. */
  function Up(n: nat, l: nat): nat { if l == 0 then n else Up(n / 2, l - 1) }

  /** The first chunk of block `n` of level `l`. */
  function First(l: nat, n: nat): nat { if l == 0 then n else First(l - 1, 2 * n) }

  function Sibling(n: nat): nat { if n % 2 == 0 then n + 1 else n - 1 }

  lemma {:induction false} UpStep(n: nat, l: nat)
    ensures Up(n, l + 1) == Up(n, l) / 2
  {
    if l > 0 { UpStep(n / 2, l - 1); }
  }

  lemma {:induction false} UpUp(n: nat, k: nat, l: nat)
    ensures Up(Up(n, k), l) == Up(n, k + l)
  {
    if k > 0 { UpUp(n / 2, k - 1, l); }
  }

  lemma {:induction false} UpFirst(l: nat, n: nat)
    ensures Up(First(l, n), l) == n
  {
    if l > 0 {
      UpFirst(l - 1, 2 * n);
      UpStep(First(l, n), l - 1);
    }
  }

  // ---------- the free set ----------

  ghost predicate Free(s: Blocks, u: nat) { exists l: nat :: l < |s| && Up(u, l) in s[l] }

  /** No chunk lies in two blocks. */
  ghost predicate Disjoint(s: Blocks) {
    forall u: nat, k: nat, l: nat :: k < l < |s| && Up(u, k) in s[k] ==> Up(u, l) !in s[l]
  }

  ghost predicate WhollyFree(s: Blocks, l: nat, n: nat) { forall u: nat :: Up(u, l) == n ==> Free(s, u) }

  /** No chunk of the block is free. */
  ghost predicate Unheld(s: Blocks, l: nat, n: nat) { forall u: nat :: Up(u, l) == n ==> !Free(s, u) }

  // ---------- boundaries ----------

  /** The block does not reach across the start of a separately obtained range. */
  predicate Uncrossed(boundary: set<nat>, l: nat, n: nat) {
    forall u <- boundary :: Up(u, l) == n ==> u == First(l, n)
  }

  /** Whether block `n` and its buddy may be merged. */
  predicate Mergeable(boundary: set<nat>, l: nat, n: nat) {
    First(l, if n % 2 == 0 then n + 1 else n) !in boundary
  }

  lemma MergeUncrossed(boundary: set<nat>, l: nat, n: nat)
    requires Uncrossed(boundary, l, n) && Uncrossed(boundary, l, Sibling(n)) && Mergeable(boundary, l, n)
    ensures Uncrossed(boundary, l + 1, n / 2)
  {
    var m := n / 2;
    forall u | u in boundary && Up(u, l + 1) == m ensures u == First(l + 1, m) {
      UpStep(u, l);
      assert Up(u, l) == 2 * m || Up(u, l) == 2 * m + 1;
    }
  }

  lemma SplitUncrossed(boundary: set<nat>, l: nat, m: nat)
    requires Uncrossed(boundary, l + 1, m)
    ensures Uncrossed(boundary, l, 2 * m) && Uncrossed(boundary, l, 2 * m + 1) && Mergeable(boundary, l, 2 * m)
  {
    forall u | u in boundary && (Up(u, l) == 2 * m || Up(u, l) == 2 * m + 1) ensures u == First(l, 2 * m) {
      UpStep(u, l);
    }
    UpFirst(l, 2 * m);
    UpFirst(l, 2 * m + 1);
    UpStep(First(l, 2 * m + 1), l);
  }

  // ---------- the invariant ----------

  /** The block's buddy is not held as well, unless the two may not be merged. */
  ghost predicate Lone(held: set<nat>, boundary: set<nat>, l: nat, n: nat) {
    Sibling(n) in held ==> !Mergeable(boundary, l, n)
  }

  ghost predicate AllLone(s: Blocks, boundary: set<nat>) {
    forall l: nat, n: nat {:trigger Lone(s[l], boundary, l, n)} :: l < |s| && n in s[l] ==> Lone(s[l], boundary, l, n)
  }

  ghost predicate AllUncrossed(s: Blocks, boundary: set<nat>) {
    forall l: nat, n: nat {:trigger Uncrossed(boundary, l, n)} :: l < |s| && n in s[l] ==> Uncrossed(boundary, l, n)
  }

  ghost predicate Inv(s: Blocks, boundary: set<nat>) {
    Disjoint(s) && AllUncrossed(s, boundary) && AllLone(s, boundary)
  }

  /** A block that is wholly free and may be a block at all lies inside one that is held. */
  lemma {:induction false} Complete(s: Blocks, boundary: set<nat>, l: nat, n: nat) returns (h: nat)
    requires Inv(s, boundary) && WhollyFree(s, l, n) && Uncrossed(boundary, l, n)
    ensures l <= h < |s| && Up(n, h - l) in s[h]
  {
    hide Inv, Uncrossed, Free, Up, First;
    if l == 0 {
      h := FreeChunk(s, n);
    } else {
      SplitUncrossed(boundary, l - 1, n);
      HalvesFree(s, l - 1, n);
      hide WhollyFree;
      h := Complete(s, boundary, l - 1, 2 * n);
      if h == l - 1 {
        var h' := Complete(s, boundary, l - 1, 2 * n + 1);
        if h' == l - 1 {
          Apart(s, boundary, l - 1, n);
          assert false;
        }
        HalfUp(2 * n + 1, h' - l);
        h := h';
      } else {
        HalfUp(2 * n, h - l);
      }
    }
  }

  lemma FreeChunk(s: Blocks, n: nat) returns (h: nat)
    requires WhollyFree(s, 0, n)
    ensures h < |s| && Up(n, h) in s[h]
  {
    assert Up(n, 0) == n;
    assert Free(s, n);
    h :| h < |s| && Up(n, h) in s[h];
  }

  lemma HalfUp(n: nat, k: nat)
    ensures Up(n, k + 1) == Up(n / 2, k) && Up(n, 0) == n
  {
  }

  lemma Apart(s: Blocks, boundary: set<nat>, l: nat, m: nat)
    requires Inv(s, boundary) && l < |s| && Up(2 * m, 0) in s[l] && Up(2 * m + 1, 0) in s[l]
    ensures !Mergeable(boundary, l, 2 * m)
  {
    hide Disjoint, AllUncrossed;
    assert Lone(s[l], boundary, l, 2 * m);
  }

  lemma HalvesFree(s: Blocks, l: nat, m: nat)
    requires WhollyFree(s, l + 1, m)
    ensures WhollyFree(s, l, 2 * m) && WhollyFree(s, l, 2 * m + 1)
  {
    forall u: nat | Up(u, l) == 2 * m || Up(u, l) == 2 * m + 1 ensures Free(s, u) { UpStep(u, l); }
  }

  // ---------- taking blocks out and putting them in ----------

  lemma FreeWithout(s: Blocks, l: nat, n: nat, u: nat)
    requires Disjoint(s) && l < |s| && n in s[l]
    ensures Free(s[l := s[l] - {n}], u) <==> Free(s, u) && Up(u, l) != n
  {
    hide Up;
    var s' := s[l := s[l] - {n}];
    if Free(s', u) {
      var k: nat :| k < |s'| && Up(u, k) in s'[k];
      assert Up(u, k) in s[k];
    }
    if Free(s, u) && Up(u, l) != n {
      var k: nat :| k < |s| && Up(u, k) in s[k];
      assert Up(u, k) in s'[k];
    }
  }

  lemma Removed(s: Blocks, boundary: set<nat>, l: nat, n: nat)
    requires Inv(s, boundary) && l < |s| && n in s[l]
    ensures var s' := s[l := s[l] - {n}];
      && Inv(s', boundary) && Unheld(s', l, n)
      && forall u: nat :: Free(s', u) <==> Free(s, u) && Up(u, l) != n
  {
    var s' := s[l := s[l] - {n}];
    forall u: nat ensures Free(s', u) <==> Free(s, u) && Up(u, l) != n { FreeWithout(s, l, n, u); }
    hide Up, Free, Uncrossed, Mergeable;
    forall k: nat, m: nat | k < |s'| && m in s'[k] ensures Lone(s'[k], boundary, k, m) {
      assert Lone(s[k], boundary, k, m);
    }
  }

  lemma FreeWith(s: Blocks, l: nat, n: nat, u: nat)
    requires l < |s|
    ensures Free(s[l := s[l] + {n}], u) <==> Free(s, u) || Up(u, l) == n
  {
    hide Up;
    var s' := s[l := s[l] + {n}];
    if Free(s', u) {
      var k: nat :| k < |s'| && Up(u, k) in s'[k];
      assert k != l ==> Up(u, k) in s[k];
    }
    if Free(s, u) {
      var k: nat :| k < |s| && Up(u, k) in s[k];
      assert Up(u, k) in s'[k];
    }
    if Up(u, l) == n { assert Up(u, l) in s'[l]; }
  }

  lemma DisjointWith(s: Blocks, l: nat, n: nat)
    requires Disjoint(s) && l < |s| && Unheld(s, l, n)
    ensures Disjoint(s[l := s[l] + {n}])
  {
    hide Up;
    var s' := s[l := s[l] + {n}];
    forall u: nat, k: nat, j: nat | k < j < |s'| && Up(u, k) in s'[k] ensures Up(u, j) !in s'[j] {
      if Up(u, l) == n { assert !Free(s, u); }
    }
  }

  lemma LoneWith(s: Blocks, boundary: set<nat>, l: nat, n: nat)
    requires AllLone(s, boundary) && l < |s| && (Sibling(n) in s[l] ==> !Mergeable(boundary, l, n))
    ensures AllLone(s[l := s[l] + {n}], boundary)
  {
    var s' := s[l := s[l] + {n}];
    forall k: nat, m: nat | k < |s'| && m in s'[k] ensures Lone(s'[k], boundary, k, m) {
      assert m in s[k] ==> Lone(s[k], boundary, k, m);
    }
  }

  lemma Added(s: Blocks, boundary: set<nat>, l: nat, n: nat)
    requires Inv(s, boundary) && l < |s| && Unheld(s, l, n) && Uncrossed(boundary, l, n)
    requires Sibling(n) in s[l] ==> !Mergeable(boundary, l, n)
    ensures var s' := s[l := s[l] + {n}];
      && Inv(s', boundary) && forall u: nat :: Free(s', u) <==> Free(s, u) || Up(u, l) == n
  {
    var s' := s[l := s[l] + {n}];
    forall u: nat ensures Free(s', u) <==> Free(s, u) || Up(u, l) == n { FreeWith(s, l, n, u); }
    DisjointWith(s, l, n);
    LoneWith(s, boundary, l, n);
    hide Disjoint, AllLone, Up, Free, Uncrossed;
  }
}
