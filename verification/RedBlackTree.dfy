/**
 * Red-black trees as values: the tree itself, the context around one of its subtrees (the
 * meaning of a path), and the order, colour and black-depth conditions on both.
 *
 * Direction `true` is the left child, the side of the smaller keys.
 */
module RedBlackTree {
  import opened Powers

  // Keys are 64-bit addresses; 0 is the null node.
  const LIMIT := 0x1_0000_0000_0000_0000

  datatype Tree = Nil | Node(left: Tree, key: nat, red: bool, right: Tree)

  function Key(t: Tree): nat { if t.Nil? then 0 else t.key }

  predicate Red(t: Tree) { t.Node? && t.red }

  /** The node with `a` on side `dir` and `b` on the other side. */
  function Mk(dir: bool, a: Tree, key: nat, red: bool, b: Tree): Tree {
    if dir then Node(a, key, red, b) else Node(b, key, red, a)
  }

  function Kid(dir: bool, t: Tree): Tree
    requires t.Node?
  {
    if dir then t.left else t.right
  }

  /** Everything around one subtree: the frame next to it first, the root last. */
  datatype Context = Top | Frame(dir: bool, key: nat, red: bool, sibling: Tree, up: Context)

  function Plug(c: Context, t: Tree): Tree {
    match c
    case Top => t
    case Frame(dir, key, red, sibling, up) => Plug(up, Mk(dir, t, key, red, sibling))
  }

  function Keys(t: Tree): set<nat> {
    match t
    case Nil => {}
    case Node(l, k, _, r) => Keys(l) + {k} + Keys(r)
  }

  function ContextKeys(c: Context): set<nat> {
    match c
    case Top => {}
    case Frame(_, k, _, s, up) => Keys(s) + {k} + ContextKeys(up)
  }

  lemma PlugKeys(c: Context, t: Tree)
    ensures Keys(Plug(c, t)) == Keys(t) + ContextKeys(c)
  {
  }

  // ---------- search order ----------

  /** A search tree whose keys lie strictly between `lo` and `hi`. */
  predicate Ordered(t: Tree, lo: int, hi: int) {
    t.Node? ==> lo < t.key < hi && Ordered(t.left, lo, t.key) && Ordered(t.right, t.key, hi)
  }

  /** The open interval the context leaves for its hole. */
  function Lo(c: Context): int {
    match c
    case Top => 0
    case Frame(dir, k, _, _, up) => if dir then Lo(up) else k
  }

  function Hi(c: Context): int {
    match c
    case Top => LIMIT
    case Frame(dir, k, _, _, up) => if dir then k else Hi(up)
  }

  predicate OrderedContext(c: Context) {
    match c
    case Top => true
    case Frame(dir, k, _, s, up) =>
      && Lo(up) < k < Hi(up) && OrderedContext(up)
      && (if dir then Ordered(s, k, Hi(up)) else Ordered(s, Lo(up), k))
  }

  lemma OrderedKeys(t: Tree, lo: int, hi: int)
    requires Ordered(t, lo, hi)
    ensures forall x <- Keys(t) :: lo < x < hi
  {
  }

  lemma ContextKeysOutside(c: Context)
    requires OrderedContext(c)
    ensures 0 <= Lo(c) < Hi(c) <= LIMIT && forall x <- ContextKeys(c) :: x <= Lo(c) || Hi(c) <= x
  {
    if c.Frame? {
      ContextKeysOutside(c.up);
      if c.dir { OrderedKeys(c.sibling, c.key, Hi(c.up)); } else { OrderedKeys(c.sibling, Lo(c.up), c.key); }
    }
  }

  // ---------- colours and black depth ----------

  /** No red node has a red child, and every path to a leaf has `b` black nodes. */
  predicate Balanced(t: Tree, b: nat) {
    match t
    case Nil => b == 0
    case Node(l, _, red, r) =>
      if red then !Red(l) && !Red(r) && Balanced(l, b) && Balanced(r, b)
      else b > 0 && Balanced(l, b - 1) && Balanced(r, b - 1)
  }

  predicate ParentRed(c: Context) { c.Frame? && c.red }

  /** The context is right for a hole of black depth `b` whose own root is black; the tree's root is black. */
  predicate BalancedContext(c: Context, b: nat) {
    match c
    case Top => true
    case Frame(_, _, red, s, up) =>
      && Balanced(s, b)
      && (if red then !Red(s) && up.Frame? && !ParentRed(up) && BalancedContext(up, b) else BalancedContext(up, b + 1))
  }

  /** Black depth of the whole tree. */
  function Total(c: Context, b: nat): nat {
    match c
    case Top => b
    case Frame(_, _, red, _, up) => Total(up, if red then b else b + 1)
  }

  lemma PlugBalanced(c: Context, t: Tree, b: nat)
    requires BalancedContext(c, b) && Balanced(t, b)
    requires Red(t) ==> c.Frame? && !c.red
    ensures Balanced(Plug(c, t), Total(c, b)) && !Red(Plug(c, t))
  {
    if c.Frame? {
      PlugBalanced(c.up, Mk(c.dir, t, c.key, c.red, c.sibling), if c.red then b else b + 1);
    }
  }

  /** A valid tree: a search tree with a black root of black depth `b`. */
  predicate ValidTree(t: Tree, b: nat) {
    Ordered(t, 0, LIMIT) && Balanced(t, b) && !Red(t)
  }

  // ---------- height ----------

  function Depth(c: Context): nat { if c.Top? then 0 else 1 + Depth(c.up) }

  lemma DepthBound(c: Context, b: nat)
    requires BalancedContext(c, b)
    ensures Total(c, b) >= b && Depth(c) <= 2 * (Total(c, b) - b)
    ensures c.Frame? && !c.red ==> Depth(c) < 2 * (Total(c, b) - b)
  {
  }

  /** A tree of black depth `b` has at least 2^b - 1 keys. */
  lemma {:induction false} SizeBound(t: Tree, b: nat, lo: int, hi: int)
    requires Ordered(t, lo, hi) && Balanced(t, b)
    ensures Pow2(b) <= |Keys(t)| + 1
  {
    if t.Node? {
      var b' := if t.red then b else b - 1;
      SizeBound(t.left, b', lo, t.key);
      SizeBound(t.right, b', t.key, hi);
      OrderedKeys(t.left, lo, t.key);
      OrderedKeys(t.right, t.key, hi);
      assert Keys(t.left) !! Keys(t.right) && t.key !in Keys(t.left) + Keys(t.right);
      assert |Keys(t)| == |Keys(t.left)| + 1 + |Keys(t.right)|;
    }
  }

  /** Fewer than 2^63 keys: what the fixed path array is meant for. */
  ghost predicate Small(t: Tree) { |Keys(t)| < Pow2(63) }

  /** Height is at most 2 log2(n + 1), so a path in a tree of fewer than 2^63 keys fits 128 slots. */
  lemma PathFits(t: Tree, b: nat, c: Context, h: nat)
    requires ValidTree(t, b) && BalancedContext(c, h) && Total(c, h) == b
    ensures Depth(c) <= 2 * b && Pow2(b) <= |Keys(t)| + 1
    ensures Small(t) ==> Depth(c) + 1 < 128
  {
    DepthBound(c, h);
    SizeBound(t, b, 0, LIMIT);
    if Small(t) && b > 63 {
      Pow2Mono(64, b);
      assert false;
    }
  }

  /** Where a hole of a valid tree is, the context is balanced. */
  lemma Unplug(c: Context, t: Tree, total: nat) returns (b: nat)
    requires Balanced(Plug(c, t), total) && !Red(Plug(c, t))
    ensures Balanced(t, b) && BalancedContext(c, b) && Total(c, b) == total
    ensures Red(t) ==> c.Frame? && !c.red
  {
    if c.Top? {
      b := total;
    } else {
      b := Unplug(c.up, Mk(c.dir, t, c.key, c.red, c.sibling), total);
      b := if c.red then b else b - 1;
    }
  }

  lemma HoleFits(c: Context, t: Tree, total: nat)
    requires ValidTree(Plug(c, t), total) && Small(Plug(c, t))
    ensures Depth(c) + 1 < 128
  {
    var b := Unplug(c, t, total);
    PathFits(Plug(c, t), total, c, b);
  }
}
