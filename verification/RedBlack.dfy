/**
 * snmalloc's in-place red-black tree with explicit paths. `tree` is the tree the store holds;
 * the ghost contexts follow the paths.
 */
module RedBlack {
  import opened Powers
  import opened RedBlackTree
  import opened RedBlackStore

  /** The contents seen from a hole: the subtree in it and everything around it. */
  ghost function Contents(c: Context, t: Tree): set<nat> { Keys(t) + ContextKeys(c) }

  /** The hole is where `value` belongs, or would belong if it were a key. */
  ghost predicate Near(c: Context, value: nat) {
    (Lo(c) < value || Lo(c) == 0) && (value < Hi(c) || Hi(c) == LIMIT)
  }

  /** A hole's bounds are keys around it, or the ends of the address space. */
  lemma {:induction false} BoundsAreKeys(c: Context)
    ensures Lo(c) == 0 || (Lo(c) >= 0 && Lo(c) as nat in ContextKeys(c))
    ensures Hi(c) == LIMIT || (Hi(c) >= 0 && Hi(c) as nat in ContextKeys(c))
  {
    if c.Frame? { BoundsAreKeys(c.up); }
  }

  class RBTree {
    var m: Store
    ghost var tree: Tree
    ghost var blacks: nat

    ghost predicate Valid()
      reads this
    {
      ValidTree(tree, blacks) && Rep(m, Top, tree)
    }

    constructor ()
      ensures Valid() && Keys(tree) == {}
    {
      m, tree, blacks := Store(0, map[]), Nil, 0;
    }

    /** `find`: walks down from the end of `path0` to `value`, or to the null link where it belongs. */
    method Find(path0: seq<Step>, value: nat, ghost c0: Context, ghost t0: Tree)
      returns (found: bool, path: seq<Step>, ghost c: Context, ghost t: Tree)
      requires Valid() && Small(tree)
      requires Rep(m, c0, t0) && Plug(c0, t0) == tree && path0 == PathTo(c0) && Near(c0, value)
      ensures Rep(m, c, t) && path == PathTo(c) && Near(c, value)
      ensures Plug(c, t) == tree
      ensures found <==> value in Keys(t0)
      ensures if found then t.Node? && t.key == value else t.Nil?
    {
      hide Rep, Plug, PathTo, Ordered, Small, ValidTree;
      path, c, t := path0, c0, t0;
      AtEnd(m, c, t);
      if m.Get(path[|path| - 1].node) == 0 {
        return false, path, c, t;
      }
      while true
        invariant Rep(m, c, t) && path == PathTo(c) && Near(c, value) && t.Node?
        invariant Plug(c, t) == tree
        invariant value in Keys(t) <==> value in Keys(t0)
        decreases t
      {
        AtEnd(m, c, t);
        var curr := m.Get(path[|path| - 1].node);
        if curr == value {
          return true, path, c, t;
        }
        var dir := curr > value;
        GoDown(m, c, t, dir);
        KeySide(m, c, t, value);
        HoleFits(c, t, blacks);
        path := Push(path, Link(curr, dir), dir);
        PathBelow(c, t, dir);
        c, t := Below(dir, c, t), Kid(dir, t);
        AtEnd(m, c, t);
        if m.Get(path[|path| - 1].node) == 0 {
          return false, path, c, t;
        }
      }
    }

    /** `insert_path`: puts `value` at the null link `path0` leads to and rebalances. */
    method InsertPath(path0: seq<Step>, value: nat, ghost c0: Context)
      requires Valid() && Rep(m, c0, Nil) && Plug(c0, Nil) == tree && path0 == PathTo(c0) && Lo(c0) < value < Hi(c0)
      modifies this
      ensures Valid() && Keys(tree) == old(Keys(tree)) + {value}
    {
      hide Rep, PathTo, Keys, BalancedContext;
      ghost var c, t := c0, Node(Nil, value, true, Nil);
      ghost var b := Unplug(c, Nil, blacks);
      InsertedKeys(c0, value);
      m := WriteLeaf(m, path0, value, c);
      var path := path0;
      while path[|path| - 1].node != Root
        invariant Rep(m, c, t) && path == PathTo(c)
        invariant Red(t) && Balanced(t, b) && BalancedContext(c, b)
        invariant Contents(c, t) == old(Keys(tree)) + {value}
        decreases Depth(c)
      {
        ParentOf(m, c, t);
        if !m.IsRed(m.Get(path[|path| - 2].node)) {
          tree, blacks := Plug(c, t), Total(c, b);
          Whole(m, c, t, b);
          return;
        }
        m, path, t := InsertStep(m, path, c, t, b);
        assert Depth(c.up.up) + 2 == Depth(c);
        c, b := c.up.up, b + 1;
      }
      Blacken(m, t);
      m := m.SetRed(m.Get(Root), false);
      tree, blacks := t.(red := false), b + 1;
    }

    /** `remove_path`: takes the node at the end of `path0` out and rebalances. */
    method RemovePath(path0: seq<Step>, ghost c0: Context, ghost z: Tree)
      requires Valid() && Small(tree)
      requires z.Node? && Rep(m, c0, z) && Plug(c0, z) == tree && path0 == PathTo(c0)
      modifies this
      ensures Valid() && Keys(tree) == old(Keys(tree)) - {z.key}
    {
      hide Rep, PathTo, Keys, Small, Balanced, ValidTree, BalancedContext;
      var splice := path0[|path0| - 1].node;
      var path, c, t := Descend(m, path0, c0, z, blacks);
      ghost var b := SpliceBalance(m, c, t, z, c0, blacks);
      var leafRed;
      m, leafRed, path := Splice(m, splice, path, c, t, z, c0);
      c := Around(c, t, z);
      if leafRed {
        tree, blacks := Plug(c, t.left), Total(c, b);
        Whole(m, c, t.left, b);
        return;
      }
      m, tree, blacks := Rebalance(m, path, c, t.left, b - 1);
    }

    method PathToMin() returns (path: seq<Step>, ghost c: Context, ghost t: Tree)
      requires Valid() && Small(tree) && tree.Node?
      ensures Rep(m, c, t) && t.Node? && path == PathTo(c) && Plug(c, t) == tree
      ensures forall k <- Keys(t) + ContextKeys(c) :: t.key <= k
    {
      hide Small, Balanced, ValidTree, HoldsContext, Holds, Keys, OrderedContext;
      path := [Step(Root, false)];
      c, t := Top, tree;
      while true
        invariant Rep(m, c, t) && t.Node? && path == PathTo(c) && Plug(c, t) == tree
        invariant forall k <- ContextKeys(c) :: Hi(c) <= k
        decreases t
      {
        hide Rep, PathTo, Ordered, Plug;
        AtEnd(m, c, t);
        HoleFits(c, t, blacks);
        GoDown(m, c, t, true);
        AtEnd(m, Below(true, c, t), t.left);
        Leftmost(m, c, t);
        if m.Child(true, m.Get(path[|path| - 1].node)) == 0 {
          break;
        }
        path := Push(path, Link(m.Get(path[|path| - 1].node), true), true);
        PathBelow(c, t, true);
        c, t := Below(true, c, t), t.left;
      }
    }

    /** `remove_min`. */
    method RemoveMin() returns (result: nat)
      requires Valid() && Small(tree)
      modifies this
      ensures Valid() && Keys(tree) == old(Keys(tree)) - {result}
      ensures result == 0 <==> old(Keys(tree)) == {}
      ensures result != 0 ==> result in old(Keys(tree)) && forall k <- old(Keys(tree)) :: result <= k
    {
      hide Small, Balanced, Plug;
      if IsEmpty() {
        return 0;
      }
      var path, c, t := PathToMin();
      AtEnd(m, c, t);
      result := m.Get(path[|path| - 1].node);
      PlugKeys(c, t);
      RemovePath(path, c, t);
    }

    predicate IsEmpty()
      reads this
      requires Valid()
      ensures IsEmpty() <==> Keys(tree) == {}
    {
      assert tree.Node? ==> tree.key in Keys(tree);
      m.root == 0
    }

    /** `remove_elem`. */
    method RemoveElem(value: nat) returns (removed: bool)
      requires Valid() && Small(tree)
      modifies this
      ensures Valid() && Keys(tree) == old(Keys(tree)) - {value}
      ensures removed <==> value in old(Keys(tree))
    {
      hide Rep, Small, Keys;
      if IsEmpty() {
        return false;
      }
      var found, path, c, t := Find([Step(Root, false)], value, Top, tree);
      if found {
        RemovePath(path, c, t);
      }
      removed := found;
    }

    /** `insert_elem`. */
    method InsertElem(value: nat) returns (inserted: bool)
      requires Valid() && Small(tree) && 0 < value < LIMIT
      modifies this
      ensures Valid() && Keys(tree) == old(Keys(tree)) + {value}
      ensures inserted <==> value !in old(Keys(tree))
    {
      hide Rep, Small, Keys;
      var found, path, c, t := Find([Step(Root, false)], value, Top, tree);
      if !found {
        InsertPath(path, value, c);
      }
      inserted := !found;
    }
  }

  // ---------- insertion ----------

  lemma InsertedKeys(c: Context, value: nat)
    ensures Contents(c, Node(Nil, value, true, Nil)) == Keys(Plug(c, Nil)) + {value}
  {
    PlugKeys(c, Nil);
  }

  lemma ParentOf(m: Store, c: Context, t: Tree)
    requires Rep(m, c, t) && c.Frame?
    ensures m.Get(PathTo(c)[|PathTo(c)| - 2].node) == c.key && m.IsRed(c.key) == c.red
  {
    GoUp(m, c, t);
  }

  lemma Blacken(m: Store, t: Tree)
    requires Rep(m, Top, t) && Red(t)
    ensures t.key == m.root && t.key != 0
    ensures Rep(m.SetRed(m.root, false), Top, t.(red := false)) && Keys(t.(red := false)) == Contents(Top, t)
    ensures Ordered(t.(red := false), 0, LIMIT)
    ensures forall b: nat :: Balanced(t, b) ==> Balanced(t.(red := false), b + 1)
  {
    KidsFrame(m, m.SetRed(m.root, false), t, 0, LIMIT);
  }

  /** Double red, both links in the same direction. */
  method SameDirection(s: Store, path: seq<Step>, ghost c: Context, ghost t: Tree) returns (m: Store, ghost t': Tree)
    requires Rep(s, c, t) && path == PathTo(c) && Red(t)
    requires c.Frame? && c.up.Frame? && c.dir == c.up.dir
    ensures Rep(m, c.up.up, t')
    ensures t' == Mk(c.dir, t.(red := false), c.key, c.red, Mk(c.dir, c.sibling, c.up.key, c.up.red, c.up.sibling))
  {
    hide Rep, Holds, Ordered, HoldsContext, OrderedContext, PathTo, Store.Set, Store.SetRed, Store.At;
    ghost var up := c.up.up;
    ghost var p := Fold(c, t);
    ghost var g := Fold(c.up, p);
    GoUp(s, c, t);
    GoUp(s, c.up, p);
    ThreeCells(s, up, c.dir, c.dir, t, p, g);
    m := s;
    var n := |path|;
    var currDir := path[n - 1].dir;
    var curr := m.Get(path[n - 1].node);
    var parent := m.Get(path[n - 2].node);
    var grandParent := m.Get(path[n - 3].node);
    var sibling := m.Child(!currDir, parent);
    m := m.SetRed(curr, false);
    m := m.Set(Link(grandParent, currDir), sibling);
    m := m.Set(Link(parent, !currDir), grandParent);
    m := m.Set(path[n - 3].node, parent);
    t' := Mk(c.dir, t.(red := false), c.key, c.red, Mk(c.dir, c.sibling, c.up.key, c.up.red, c.up.sibling));
    SameDirectionHolds(s, m, up, c.dir, t, p, g, t');
  }

  /** What a node, one of its children and one grandchild look like in the store. */
  lemma ThreeCells(m: Store, up: Context, dir: bool, dir': bool, t: Tree, p: Tree, g: Tree)
    requires t.Node? && p.Node? && g.Node? && Kid(dir, g) == p && Kid(dir', p) == t && Rep(m, up, g)
    ensures m.At(t.key) == Cell(Key(t.left), Key(t.right), t.red)
    ensures m.At(p.key) == Side(dir', t.key, p.red, Key(Kid(!dir', p)))
    ensures m.At(g.key) == Side(dir, p.key, g.red, Key(Kid(!dir, g)))
    ensures t.key != p.key && p.key != g.key && t.key != g.key && 0 !in {t.key, p.key, g.key}
    ensures Lo(up) < t.key < Hi(up) && Lo(up) < p.key < Hi(up) && Lo(up) < g.key < Hi(up)
    ensures Slot(up).Link? ==> Slot(up).key != 0 && (Slot(up).key <= Lo(up) || Hi(up) <= Slot(up).key)
  {
    assert Holds(m, p) && Ordered(p, if dir then Lo(up) else g.key, if dir then g.key else Hi(up));
    assert Holds(m, t);
    OrderedKeys(p, if dir then Lo(up) else g.key, if dir then g.key else Hi(up));
    if dir' { OrderedKeys(p.left, if dir then Lo(up) else g.key, p.key); }
    else { OrderedKeys(p.right, p.key, if dir then g.key else Hi(up)); }
    SetSlot(m, up, g.key, 0);
  }

  lemma AtEnd(m: Store, c: Context, t: Tree)
    requires Rep(m, c, t)
    ensures m.Get(PathTo(c)[|PathTo(c)| - 1].node) == Key(t) && (Key(t) == 0 <==> t.Nil?)
  {
    SlotHolds(m, c, Key(t));
  }

  lemma KeySide(m: Store, c: Context, t: Tree, value: nat)
    requires Rep(m, c, t) && t.Node? && value != t.key
    ensures value in Keys(t) <==> value in Keys(Kid(t.key > value, t))
  {
    OrderedKeys(t.left, Lo(c), t.key);
    OrderedKeys(t.right, t.key, Hi(c));
  }

  lemma PathBelow(c: Context, t: Tree, dir: bool)
    requires t.Node?
    ensures PathTo(Below(dir, c, t)) == PathTo(c) + [Step(Link(t.key, dir), dir)]
  {
  }

  lemma SameDirectionHolds(m: Store, m': Store, up: Context, dir: bool, t: Tree, p: Tree, g: Tree, t': Tree)
    requires t.Node? && p.Node? && g.Node? && Kid(dir, g) == p && Kid(dir, p) == t && Rep(m, up, g)
    requires t' == Mk(dir, t.(red := false), p.key, p.red, Mk(dir, Kid(!dir, p), g.key, g.red, Kid(!dir, g)))
    requires (Slot(up).Link? ==> Slot(up).key != 0) && Only(m, m', up, p.key, {t.key, p.key, g.key})
    requires Lo(up) < t.key < Hi(up) && Lo(up) < p.key < Hi(up) && Lo(up) < g.key < Hi(up)
    requires m'.At(t.key) == Cell(Key(t.left), Key(t.right), false)
    requires m'.At(p.key) == Side(dir, t.key, p.red, g.key)
    requires m'.At(g.key) == Side(dir, Key(Kid(!dir, p)), g.red, Key(Kid(!dir, g)))
    ensures Rep(m', up, t')
  {
    hide HoldsContext, OrderedContext, Store.At, Store.Set, Only, SameOutside;
    var lo, hi := Lo(up), Hi(up);
    OnlyFrame(m, m', up, g, p.key, {t.key, p.key, g.key});
    assert Holds(m, p);
    if dir {
      assert Ordered(p, lo, g.key);
      KidsFrame(m, m', t, lo, p.key);
      HoldsFrame(m, m', p.right, p.key, g.key);
      HoldsFrame(m, m', g.right, g.key, hi);
    } else {
      assert Ordered(p, g.key, hi);
      KidsFrame(m, m', t, p.key, hi);
      HoldsFrame(m, m', p.left, g.key, p.key);
      HoldsFrame(m, m', g.left, lo, g.key);
    }
    Replaced(m, m', up, g, t');
  }

  /** Double red, the two links in opposite directions. */
  method OppositeDirection(s: Store, path: seq<Step>, ghost c: Context, ghost t: Tree)
    returns (m: Store, ghost t': Tree)
    requires Rep(s, c, t) && path == PathTo(c) && Red(t)
    requires c.Frame? && c.up.Frame? && c.dir != c.up.dir
    ensures Rep(m, c.up.up, t')
    ensures t' == Mk(c.dir, Mk(!c.dir, Kid(c.dir, t), c.up.key, c.up.red, c.up.sibling), t.key, true,
                     Mk(c.dir, Kid(!c.dir, t), c.key, false, c.sibling))
  {
    hide Rep, Holds, Ordered, HoldsContext, OrderedContext, PathTo, Store.Set, Store.SetRed, Store.At;
    ghost var up := c.up.up;
    ghost var p := Fold(c, t);
    ghost var g := Fold(c.up, p);
    GoUp(s, c, t);
    GoUp(s, c.up, p);
    ThreeCells(s, up, !c.dir, c.dir, t, p, g);
    m := s;
    var n := |path|;
    var currDir := path[n - 1].dir;
    var curr := m.Get(path[n - 1].node);
    var parent := m.Get(path[n - 2].node);
    var grandParent := m.Get(path[n - 3].node);
    var childG := m.Child(currDir, curr);
    var childP := m.Child(!currDir, curr);
    m := m.SetRed(parent, false);
    m := m.Set(path[n - 3].node, curr);
    m := m.Set(Link(curr, currDir), grandParent);
    m := m.Set(Link(curr, !currDir), parent);
    m := m.Set(Link(parent, currDir), childP);
    m := m.Set(Link(grandParent, !currDir), childG);
    t' := Mk(c.dir, Mk(!c.dir, Kid(c.dir, t), c.up.key, c.up.red, c.up.sibling), t.key, true,
             Mk(c.dir, Kid(!c.dir, t), c.key, false, c.sibling));
    OppositeDirectionHolds(s, m, up, c.dir, t, p, g, t');
  }

  lemma OppositeDirectionHolds(m: Store, m': Store, up: Context, dir: bool, t: Tree, p: Tree, g: Tree, t': Tree)
    requires t.Node? && p.Node? && g.Node? && Kid(!dir, g) == p && Kid(dir, p) == t && Rep(m, up, g)
    requires t' == Mk(dir, Mk(!dir, Kid(dir, t), g.key, g.red, Kid(dir, g)), t.key, t.red,
                      Mk(dir, Kid(!dir, t), p.key, false, Kid(!dir, p)))
    requires (Slot(up).Link? ==> Slot(up).key != 0) && Only(m, m', up, t.key, {t.key, p.key, g.key})
    requires Lo(up) < t.key < Hi(up) && Lo(up) < p.key < Hi(up) && Lo(up) < g.key < Hi(up)
    requires m'.At(t.key) == Side(dir, g.key, t.red, p.key)
    requires m'.At(p.key) == Side(dir, Key(Kid(!dir, t)), false, Key(Kid(!dir, p)))
    requires m'.At(g.key) == Side(!dir, Key(Kid(dir, t)), g.red, Key(Kid(dir, g)))
    ensures Rep(m', up, t')
  {
    hide HoldsContext, OrderedContext, Store.At, Store.Set, Only, SameOutside;
    var lo, hi := Lo(up), Hi(up);
    OnlyFrame(m, m', up, g, t.key, {t.key, p.key, g.key});
    assert Holds(m, p);
    if dir {
      assert Ordered(p, g.key, hi);
      KidsFrame(m, m', t, g.key, p.key);
      HoldsFrame(m, m', p.right, p.key, hi);
      HoldsFrame(m, m', g.left, lo, g.key);
    } else {
      assert Ordered(p, lo, g.key);
      KidsFrame(m, m', t, p.key, g.key);
      HoldsFrame(m, m', p.left, lo, p.key);
      HoldsFrame(m, m', g.right, g.key, hi);
    }
    Replaced(m, m', up, g, t');
  }

  /** The double red moved two levels up, in either case. */
  lemma InsertBalance(c: Context, t: Tree, b: nat, t': Tree)
    requires BalancedContext(c, b) && ParentRed(c) && Red(t) && Balanced(t, b)
    requires c.up.Frame?
    requires if c.dir == c.up.dir
      then t' == Mk(c.dir, t.(red := false), c.key, c.red, Mk(c.dir, c.sibling, c.up.key, c.up.red, c.up.sibling))
      else t' == Mk(c.dir, Mk(!c.dir, Kid(c.dir, t), c.up.key, c.up.red, c.up.sibling), t.key, true,
                    Mk(c.dir, Kid(!c.dir, t), c.key, false, c.sibling))
    ensures Red(t') && Balanced(t', b + 1) && BalancedContext(c.up.up, b + 1)
    ensures Contents(c.up.up, t') == Contents(c, t)
  {
    assert BalancedContext(c.up, b);
    hide BalancedContext;
    assert Balanced(t.left, b) && Balanced(t.right, b);
    assert ContextKeys(c) == Keys(c.sibling) + {c.key} + ContextKeys(c.up);
    assert ContextKeys(c.up) == Keys(c.up.sibling) + {c.up.key} + ContextKeys(c.up.up);
    assert Keys(t') == Keys(t) + Keys(c.sibling) + {c.key} + Keys(c.up.sibling) + {c.up.key} by {
      assert Keys(t) == Keys(t.left) + {t.key} + Keys(t.right);
    }
  }

  /** One round of the insertion loop, under a red parent. */
  method InsertStep(s: Store, path: seq<Step>, ghost c: Context, ghost t: Tree, ghost b: nat)
    returns (m: Store, path': seq<Step>, ghost t': Tree)
    requires Rep(s, c, t) && path == PathTo(c) && ParentRed(c)
    requires Red(t) && Balanced(t, b) && BalancedContext(c, b)
    ensures c.up.Frame? && Rep(m, c.up.up, t') && path' == PathTo(c.up.up)
    ensures Red(t') && Balanced(t', b + 1) && BalancedContext(c.up.up, b + 1)
    ensures Contents(c.up.up, t') == Contents(c, t)
  {
    hide Rep, Balanced, Contents;
    var n := |path|;
    if path[n - 2].dir == path[n - 1].dir {
      m, t' := SameDirection(s, path, c, t);
    } else {
      m, t' := OppositeDirection(s, path, c, t);
    }
    InsertBalance(c, t, b, t');
    path' := path[..n - 2];
  }

  /** The store after the new red leaf is written and before rebalancing. */
  lemma NewLeaf(m: Store, m': Store, c: Context, value: nat)
    requires Rep(m, c, Nil) && Lo(c) < value < Hi(c)
    requires (Slot(c).Link? ==> Slot(c).key != 0) && Only(m, m', c, value, {value})
    requires m'.At(value) == Cell(0, 0, true)
    ensures Rep(m', c, Node(Nil, value, true, Nil))
  {
    OnlyFrame(m, m', c, Nil, value, {value});
    Replaced(m, m', c, Nil, Node(Nil, value, true, Nil));
  }

  lemma SlotOutside(m: Store, c: Context, v: nat)
    requires HoldsContext(m, c, v) && OrderedContext(c)
    ensures Slot(c).Link? ==> Slot(c).key != 0 && (Slot(c).key <= Lo(c) || Hi(c) <= Slot(c).key)
    ensures Lo(c) >= 0
  {
    SetSlot(m, c, v, v);
    ContextKeysOutside(c);
  }

  method WriteLeaf(s: Store, path: seq<Step>, value: nat, ghost c: Context) returns (m: Store)
    requires Rep(s, c, Nil) && path == PathTo(c) && Lo(c) < value < Hi(c)
    ensures Rep(m, c, Node(Nil, value, true, Nil))
  {
    SlotOutside(s, c, 0);
    hide Store.At, Store.Set, Store.SetRed, PathTo, Rep, OrderedContext, HoldsContext;
    var curr := path[|path| - 1].node;
    m := s.Set(curr, value);
    m := m.Set(Link(m.Get(curr), true), 0);
    m := m.Set(Link(m.Get(curr), false), 0);
    m := m.SetRed(value, true);
    NewLeaf(s, m, c, value);
  }

  /** A subtree back in its context. */
  lemma Whole(m: Store, c: Context, t: Tree, b: nat)
    requires Rep(m, c, t) && Balanced(t, b) && BalancedContext(c, b) && (Red(t) ==> c.Frame? && !c.red)
    ensures ValidTree(Plug(c, t), Total(c, b)) && Rep(m, Top, Plug(c, t)) && Keys(Plug(c, t)) == Contents(c, t)
  {
    PlugBalanced(c, t, b);
    PlugKeys(c, t);
    PlugRep(m, c, t);
  }

  lemma {:induction false} PlugRep(m: Store, c: Context, t: Tree)
    requires Rep(m, c, t)
    ensures Rep(m, Top, Plug(c, t))
  {
    if c.Frame? {
      GoUp(m, c, t);
      PlugRep(m, c.up, Fold(c, t));
    }
  }

  // ---------- removal: the double-black cases ----------

  /** A node and one child, as the store holds them. */
  lemma TwoCells(m: Store, up: Context, dir: bool, s: Tree, p: Tree)
    requires s.Node? && p.Node? && Kid(dir, p) == s && Rep(m, up, p)
    ensures m.At(s.key) == Cell(Key(s.left), Key(s.right), s.red)
    ensures m.At(p.key) == Side(dir, s.key, p.red, Key(Kid(!dir, p)))
    ensures s.key != p.key && s.key != 0 && p.key != 0
    ensures Lo(up) < s.key < Hi(up) && Lo(up) < p.key < Hi(up)
    ensures Slot(up).Link? ==> Slot(up).key != 0 && (Slot(up).key <= Lo(up) || Hi(up) <= Slot(up).key)
  {
    assert Holds(m, s);
    OrderedKeys(s, if dir then Lo(up) else p.key, if dir then p.key else Hi(up));
    SetSlot(m, up, p.key, 0);
  }

  /** Red sibling: a rotation that gives the hole a black sibling and a red parent. */
  method RedSibling(s: Store, path: seq<Step>, ghost c: Context, ghost t: Tree)
    returns (m: Store, path': seq<Step>, ghost c': Context)
    requires Rep(s, c, t) && path == PathTo(c) && c.Frame? && c.sibling.Node? && |path| < CAPACITY
    ensures c' == Frame(c.dir, c.key, true, Kid(c.dir, c.sibling),
                        Frame(c.dir, c.sibling.key, false, Kid(!c.dir, c.sibling), c.up))
    ensures Rep(m, c', t) && path' == PathTo(c')
  {
    hide Rep, Holds, Ordered, HoldsContext, OrderedContext, PathTo, Store.Set, Store.SetRed, Store.At;
    ghost var p := Fold(c, t);
    GoUp(s, c, t);
    TwoCells(s, c.up, !c.dir, c.sibling, p);
    m := s;
    var n := |path|;
    var parent := m.Get(path[n - 2].node);
    var curDir := path[n - 1].dir;
    var sibling := m.Child(!curDir, parent);
    var nibling := m.Child(curDir, sibling);
    m := m.Set(Link(parent, !curDir), nibling);
    m := m.Set(Link(sibling, curDir), parent);
    m := m.SetRed(parent, true);
    m := m.SetRed(sibling, false);
    m := m.Set(path[n - 2].node, sibling);
    ghost var p' := Mk(c.dir, t, c.key, true, Kid(c.dir, c.sibling));
    ghost var s' := Mk(c.dir, p', c.sibling.key, false, Kid(!c.dir, c.sibling));
    RedSiblingHolds(s, m, c.up, c.dir, t, c.sibling, p, s');
    c' := Below(c.dir, c.up, s');
    GoDown(m, c.up, s', c.dir);
    GoDown(m, c', p', c.dir);
    PathBelow(c.up, s', c.dir);
    PathBelow(c', p', c.dir);
    c' := Below(c.dir, c', p');
    // Drop the hole, then walk down through the old parent again.
    path' := path[..n - 1];
    path' := Push(path', Link(m.Get(path'[n - 2].node), curDir), curDir);
    path' := Push(path', Link(m.Get(path'[n - 1].node), curDir), curDir);
  }

  lemma RedSiblingHolds(m: Store, m': Store, up: Context, dir: bool, t: Tree, s: Tree, p: Tree, s': Tree)
    requires s.Node? && p.Node? && Kid(dir, p) == t && Kid(!dir, p) == s && Rep(m, up, p)
    requires s' == Mk(dir, Mk(dir, t, p.key, true, Kid(dir, s)), s.key, false, Kid(!dir, s))
    requires (Slot(up).Link? ==> Slot(up).key != 0) && Only(m, m', up, s.key, {s.key, p.key})
    requires Lo(up) < s.key < Hi(up) && Lo(up) < p.key < Hi(up)
    requires m'.At(s.key) == Side(dir, p.key, false, Key(Kid(!dir, s)))
    requires m'.At(p.key) == Side(dir, Key(t), true, Key(Kid(dir, s)))
    ensures Rep(m', up, s')
  {
    hide HoldsContext, OrderedContext, Store.At, Store.Set, Only, SameOutside;
    var lo, hi := Lo(up), Hi(up);
    OnlyFrame(m, m', up, p, s.key, {s.key, p.key});
    if dir {
      KidsFrame(m, m', s, p.key, hi);
      HoldsFrame(m, m', t, lo, p.key);
    } else {
      KidsFrame(m, m', s, lo, p.key);
      HoldsFrame(m, m', t, p.key, hi);
    }
    Replaced(m, m', up, p, s');
  }

  /** Red nibling on the far side: a single rotation. */
  method FarNibling(s: Store, path: seq<Step>, ghost c: Context, ghost t: Tree) returns (m: Store, ghost t': Tree)
    requires Rep(s, c, t) && path == PathTo(c) && c.Frame? && c.sibling.Node? && Red(Kid(!c.dir, c.sibling))
    ensures t' == Mk(c.dir, Mk(c.dir, t, c.key, false, Kid(c.dir, c.sibling)), c.sibling.key, c.red,
                     Kid(!c.dir, c.sibling).(red := false))
    ensures Rep(m, c.up, t')
  {
    hide Rep, Holds, Ordered, HoldsContext, OrderedContext, PathTo, Store.Set, Store.SetRed, Store.At;
    ghost var p, rn := Fold(c, t), Kid(!c.dir, c.sibling);
    GoUp(s, c, t);
    ThreeCells(s, c.up, !c.dir, !c.dir, rn, c.sibling, p);
    m := s;
    var n := |path|;
    var parent := m.Get(path[n - 2].node);
    var curDir := path[n - 1].dir;
    var sibling := m.Child(!curDir, parent);
    var rNibling := m.Child(!curDir, sibling);
    var oNibling := m.Child(curDir, sibling);
    m := m.Set(Link(sibling, curDir), parent);
    m := m.Set(Link(parent, !curDir), oNibling);
    m := m.Set(path[n - 2].node, sibling);
    m := m.SetRed(rNibling, false);
    m := m.SetRed(sibling, m.IsRed(parent));
    m := m.SetRed(parent, false);
    t' := Mk(c.dir, Mk(c.dir, t, c.key, false, Kid(c.dir, c.sibling)), c.sibling.key, c.red, rn.(red := false));
    FarNiblingHolds(s, m, c.up, c.dir, t, c.sibling, p, rn, t');
  }

  lemma FarNiblingHolds(m: Store, m': Store, up: Context, dir: bool, t: Tree, s: Tree, p: Tree, rn: Tree, t': Tree)
    requires s.Node? && p.Node? && rn.Node? && Kid(dir, p) == t && Kid(!dir, p) == s && Kid(!dir, s) == rn &&
      Rep(m, up, p)
    requires t' == Mk(dir, Mk(dir, t, p.key, false, Kid(dir, s)), s.key, p.red, rn.(red := false))
    requires (Slot(up).Link? ==> Slot(up).key != 0) && Only(m, m', up, s.key, {rn.key, s.key, p.key})
    requires Lo(up) < rn.key < Hi(up) && Lo(up) < s.key < Hi(up) && Lo(up) < p.key < Hi(up)
    requires m'.At(rn.key) == Cell(Key(rn.left), Key(rn.right), false)
    requires m'.At(s.key) == Side(dir, p.key, p.red, rn.key)
    requires m'.At(p.key) == Side(dir, Key(t), false, Key(Kid(dir, s)))
    ensures Rep(m', up, t')
  {
    hide HoldsContext, OrderedContext, Store.At, Store.Set, Only, SameOutside;
    var lo, hi := Lo(up), Hi(up);
    OnlyFrame(m, m', up, p, s.key, {rn.key, s.key, p.key});
    assert Holds(m, s);
    if dir {
      assert Ordered(s, p.key, hi);
      KidsFrame(m, m', rn, s.key, hi);
      HoldsFrame(m, m', s.left, p.key, s.key);
      HoldsFrame(m, m', t, lo, p.key);
    } else {
      assert Ordered(s, lo, p.key);
      KidsFrame(m, m', rn, lo, s.key);
      HoldsFrame(m, m', s.right, s.key, p.key);
      HoldsFrame(m, m', t, p.key, hi);
    }
    Replaced(m, m', up, p, t');
  }

  /** Red nibling on the near side: a double rotation. */
  method NearNibling(s: Store, path: seq<Step>, ghost c: Context, ghost t: Tree) returns (m: Store, ghost t': Tree)
    requires Rep(s, c, t) && path == PathTo(c) && c.Frame? && c.sibling.Node? && Red(Kid(c.dir, c.sibling))
    ensures var rn := Kid(c.dir, c.sibling);
      t' == Mk(c.dir, Mk(c.dir, t, c.key, false, Kid(c.dir, rn)), rn.key, c.red,
               Mk(c.dir, Kid(!c.dir, rn), c.sibling.key, c.sibling.red, Kid(!c.dir, c.sibling)))
    ensures Rep(m, c.up, t')
  {
    hide Rep, Holds, Ordered, HoldsContext, OrderedContext, PathTo, Store.Set, Store.SetRed, Store.At;
    ghost var p, rn := Fold(c, t), Kid(c.dir, c.sibling);
    GoUp(s, c, t);
    ThreeCells(s, c.up, !c.dir, c.dir, rn, c.sibling, p);
    m := s;
    var n := |path|;
    var parent := m.Get(path[n - 2].node);
    var curDir := path[n - 1].dir;
    var sibling := m.Child(!curDir, parent);
    var rNibling := m.Child(curDir, sibling);
    var same := m.Child(curDir, rNibling);
    var opp := m.Child(!curDir, rNibling);
    m := m.Set(Link(parent, !curDir), same);
    m := m.Set(Link(sibling, curDir), opp);
    m := m.Set(Link(rNibling, curDir), parent);
    m := m.Set(Link(rNibling, !curDir), sibling);
    m := m.Set(path[n - 2].node, rNibling);
    m := m.SetRed(rNibling, m.IsRed(parent));
    m := m.SetRed(parent, false);
    t' := Mk(c.dir, Mk(c.dir, t, c.key, false, Kid(c.dir, rn)), rn.key, c.red,
             Mk(c.dir, Kid(!c.dir, rn), c.sibling.key, c.sibling.red, Kid(!c.dir, c.sibling)));
    NearNiblingHolds(s, m, c.up, c.dir, t, c.sibling, p, rn, t');
  }

  lemma NearNiblingHolds(m: Store, m': Store, up: Context, dir: bool, t: Tree, s: Tree, p: Tree, rn: Tree, t': Tree)
    requires s.Node? && p.Node? && rn.Node? && Kid(dir, p) == t && Kid(!dir, p) == s && Kid(dir, s) == rn &&
      Rep(m, up, p)
    requires t' == Mk(dir, Mk(dir, t, p.key, false, Kid(dir, rn)), rn.key, p.red,
                      Mk(dir, Kid(!dir, rn), s.key, s.red, Kid(!dir, s)))
    requires (Slot(up).Link? ==> Slot(up).key != 0) && Only(m, m', up, rn.key, {rn.key, s.key, p.key})
    requires Lo(up) < rn.key < Hi(up) && Lo(up) < s.key < Hi(up) && Lo(up) < p.key < Hi(up)
    requires m'.At(rn.key) == Side(dir, p.key, p.red, s.key)
    requires m'.At(s.key) == Side(dir, Key(Kid(!dir, rn)), s.red, Key(Kid(!dir, s)))
    requires m'.At(p.key) == Side(dir, Key(t), false, Key(Kid(dir, rn)))
    ensures Rep(m', up, t')
  {
    hide HoldsContext, OrderedContext, Store.At, Store.Set, Only, SameOutside;
    var lo, hi := Lo(up), Hi(up);
    OnlyFrame(m, m', up, p, rn.key, {rn.key, s.key, p.key});
    assert Holds(m, s);
    if dir {
      assert Ordered(s, p.key, hi);
      KidsFrame(m, m', rn, p.key, s.key);
      HoldsFrame(m, m', s.right, s.key, hi);
      HoldsFrame(m, m', t, lo, p.key);
    } else {
      assert Ordered(s, lo, p.key);
      KidsFrame(m, m', rn, s.key, p.key);
      HoldsFrame(m, m', s.left, lo, s.key);
      HoldsFrame(m, m', t, p.key, hi);
    }
    Replaced(m, m', up, p, t');
  }

  /** Black niblings: the sibling turns red and the parent is (or becomes) black. */
  method Recolour(s: Store, path: seq<Step>, ghost c: Context, ghost t: Tree) returns (m: Store, ghost t': Tree)
    requires Rep(s, c, t) && path == PathTo(c) && c.Frame? && c.sibling.Node?
    ensures t' == Mk(c.dir, t, c.key, false, c.sibling.(red := true))
    ensures Rep(m, c.up, t')
  {
    hide Rep, Holds, Ordered, HoldsContext, OrderedContext, PathTo, Store.Set, Store.SetRed, Store.At;
    ghost var p := Fold(c, t);
    GoUp(s, c, t);
    TwoCells(s, c.up, !c.dir, c.sibling, p);
    m := s;
    var n := |path|;
    var parent := m.Get(path[n - 2].node);
    var sibling := m.Child(!path[n - 1].dir, parent);
    if m.IsRed(parent) {
      m := m.SetRed(parent, false);
    }
    m := m.SetRed(sibling, true);
    t' := Mk(c.dir, t, c.key, false, c.sibling.(red := true));
    SlotKept(s, c.up, p.key);
    RecolourHolds(s, m, c.up, c.dir, t, c.sibling, p, t');
  }

  lemma SlotKept(m: Store, c: Context, v: nat)
    requires m.Get(Slot(c)) == v && (Slot(c).Link? ==> Slot(c).key != 0)
    ensures m.Set(Slot(c), v).root == m.root && forall x: nat :: m.Set(Slot(c), v).At(x) == m.At(x)
  {
  }

  lemma RecolourHolds(m: Store, m': Store, up: Context, dir: bool, t: Tree, s: Tree, p: Tree, t': Tree)
    requires s.Node? && p.Node? && Kid(dir, p) == t && Kid(!dir, p) == s && Rep(m, up, p)
    requires t' == Mk(dir, t, p.key, false, s.(red := true))
    requires (Slot(up).Link? ==> Slot(up).key != 0) && Only(m, m', up, p.key, {s.key, p.key})
    requires Lo(up) < s.key < Hi(up) && Lo(up) < p.key < Hi(up)
    requires m'.At(s.key) == Cell(Key(s.left), Key(s.right), true)
    requires m'.At(p.key) == Side(dir, Key(t), false, s.key)
    ensures Rep(m', up, t')
  {
    hide HoldsContext, OrderedContext, Store.At, Store.Set, Only, SameOutside;
    var lo, hi := Lo(up), Hi(up);
    OnlyFrame(m, m', up, p, p.key, {s.key, p.key});
    if dir {
      KidsFrame(m, m', s, p.key, hi);
      HoldsFrame(m, m', t, lo, p.key);
    } else {
      KidsFrame(m, m', s, lo, p.key);
      HoldsFrame(m, m', t, p.key, hi);
    }
    Replaced(m, m', up, p, t');
  }

  // ---------- removal: taking the node out ----------

  /** `c` is the left child of `z`, or the right spine below that. */
  ghost predicate Spine(c: Context, z: Tree, c0: Context)
    requires z.Node?
  {
    c.Frame? && if c.dir then c == Below(true, c0, z) else Spine(c.up, z, c0)
  }

  /**
   * Where the replacement for `z` is: at the end of the spine below its left child; without a left
   * child, `z` itself or its single right child.
   */
  ghost predicate Replacement(c: Context, t: Tree, z: Tree, c0: Context)
    requires z.Node?
  {
    && t.Node? && t.right == Nil
    && if z.left.Node? then Spine(c, z, c0)
       else if z.right.Nil? then c == c0 && t == z
       else c == Below(false, c0, z) && t == z.right && t.red && t.left == Nil
  }

  /** The walk to the replacement: left once if possible, then right as far as possible. */
  method Descend(m: Store, path0: seq<Step>, ghost c0: Context, ghost z: Tree, ghost total: nat)
    returns (path: seq<Step>, ghost c: Context, ghost t: Tree)
    requires Rep(m, c0, z) && z.Node? && path0 == PathTo(c0)
    requires ValidTree(Plug(c0, z), total) && Small(Plug(c0, z))
    ensures Rep(m, c, t) && path == PathTo(c) && Plug(c, t) == Plug(c0, z) && Replacement(c, t, z, c0)
  {
    hide Rep, Plug, PathTo, Ordered, ValidTree, Small, Keys;
    path, c, t := path0, c0, z;
    AtEnd(m, c, t);
    HoleFits(c, t, total);
    GoDown(m, c, t, true);
    AtEnd(m, Below(true, c, t), t.left);
    if z.left == Nil { LeftLess(c0, z, total); }
    var next := m.Child(true, m.Get(path[|path| - 1].node));
    if next != 0 {
      path := Push(path, Link(m.Get(path[|path| - 1].node), true), true);
      PathBelow(c, t, true);
      c, t := Below(true, c, t), t.left;
    }
    while true
      invariant Rep(m, c, t) && t.Node? && path == PathTo(c) && Plug(c, t) == Plug(c0, z)
      invariant z.left.Node? ==> Spine(c, z, c0)
      invariant z.left.Nil? ==> (c == c0 && t == z) || (c == Below(false, c0, z) && t == z.right)
      decreases t
    {
      AtEnd(m, c, t);
      HoleFits(c, t, total);
      GoDown(m, c, t, false);
      AtEnd(m, Below(false, c, t), t.right);
      var curr := m.Get(path[|path| - 1].node);
      if m.Child(false, curr) == 0 {
        break;
      }
      path := Push(path, Link(curr, false), false);
      PathBelow(c, t, false);
      c, t := Below(false, c, t), t.right;
    }
  }

  /** A node without a left child has at most a single red right child. */
  lemma LeftLess(c: Context, z: Tree, total: nat)
    requires z.Node? && ValidTree(Plug(c, z), total) && z.left == Nil
    ensures z.right.Nil? || (z.right.red && z.right.left == Nil && z.right.right == Nil)
  {
    var b := Unplug(c, z, total);
    assert Balanced(z.left, if z.red then b else b - 1);
    assert Balanced(z.right, 0);
    if z.right.Node? { assert Balanced(z.right.left, 0) && Balanced(z.right.right, 0); }
  }

  /** The context with node `k` standing where `z` stood. */
  ghost function Rekey(c: Context, z: nat, k: nat): Context {
    if c.Top? then c else if c.key == z then c.(key := k) else c.(up := Rekey(c.up, z, k))
  }

  lemma Widen(t: Tree, lo: int, hi: int, lo': int, hi': int)
    requires Ordered(t, lo, hi) && lo' <= lo && hi <= hi'
    ensures Ordered(t, lo', hi')
  {
  }

  /** Above a spine, `z` is where it was. */
  lemma {:induction false} SpineOuter(m: Store, c: Context, v: nat, z: Tree, c0: Context)
    requires z.Node? && Spine(c, z, c0) && OrderedContext(c) && HoldsContext(m, c, v)
    ensures OrderedContext(c0) && HoldsContext(m, c0, z.key) && z.key != 0
    ensures Lo(c0) <= Lo(c) < Hi(c) == z.key < Hi(c0) && Lo(c0) < c.key <= z.key
  {
    ContextKeysOutside(c);
    if !c.dir { SpineOuter(m, c.up, c.key, z, c0); }
  }

  /** Node `k` took over the cell of `z`, the owner of the spine. */
  lemma {:induction false} RekeySpine(m: Store, m': Store, c: Context, v: nat, z: Tree, c0: Context, k: nat)
    requires z.Node? && Spine(c, z, c0) && OrderedContext(c) && HoldsContext(m, c, v) && Lo(c) < k < Hi(c) && k != 0
    requires m'.At(k) == m.At(z.key) && HoldsContext(m', c0, k)
    requires forall x: nat :: Lo(c0) < x < Hi(c0) && x != k ==> m'.At(x) == m.At(x)
    ensures var c' := Rekey(c, z.key, k);
      HoldsContext(m', c', v) && OrderedContext(c') && Lo(c') == Lo(c) && Hi(c') == k
  {
    SpineOuter(m, c, v, z, c0);
    if c.dir {
      HoldsFrame(m, m', c.sibling, z.key, Hi(c0));
      Widen(c.sibling, z.key, Hi(c0), k, Hi(c0));
    } else {
      SpineOuter(m, c.up, c.key, z, c0);
      RekeySpine(m, m', c.up, c.key, z, c0, k);
      HoldsFrame(m, m', c.sibling, Lo(c.up), c.key);
    }
  }

  /** Node `k`, a single right child, took over the cell of `z`. */
  lemma RekeyRight(m: Store, m': Store, v: nat, z: Tree, c0: Context, k: nat)
    requires z.Node? && OrderedContext(Below(false, c0, z)) && HoldsContext(m, Below(false, c0, z), v)
    requires z.left == Nil && z.key < k < Hi(c0)
    requires m'.At(k) == m.At(z.key) && HoldsContext(m', c0, k)
    ensures var c' := Rekey(Below(false, c0, z), z.key, k);
      HoldsContext(m', c', v) && OrderedContext(c') && Lo(c') == k && Hi(c') == Hi(c0)
  {
  }

  /** Same colours and shape, and the keys with `z` exchanged for `k`. */
  lemma {:induction false} RekeyKeeps(c: Context, z: Tree, c0: Context, k: nat, b: nat)
    requires z.Node? && OrderedContext(c) && (Spine(c, z, c0) || c == Below(false, c0, z)) && BalancedContext(c, b)
    requires Lo(c) < k < Hi(c)
    ensures var c' := Rekey(c, z.key, k);
      && BalancedContext(c', b) && Total(c', b) == Total(c, b) && c'.Frame? && c'.red == c.red
      && ContextKeys(c') == ContextKeys(c) - {z.key} + {k} && Depth(c') == Depth(c)
  {
    ContextKeysOutside(c);
    ContextKeysOutside(c.up);
    if c == Below(true, c0, z) {
      OrderedKeys(c.sibling, c.key, Hi(c.up));
    } else if c == Below(false, c0, z) {
      OrderedKeys(c.sibling, Lo(c.up), c.key);
    } else {
      SpineKeys(c.up, z, c0);
      RekeyKeeps(c.up, z, c0, k, if c.red then b else b + 1);
      OrderedKeys(c.sibling, Lo(c.up), c.key);
    }
  }

  lemma {:induction false} SpineKeys(c: Context, z: Tree, c0: Context)
    requires z.Node? && Spine(c, z, c0) && OrderedContext(c)
    ensures Hi(c) == z.key
  {
    if !c.dir { SpineKeys(c.up, z, c0); }
  }

  // ---------- the path after a splice ----------

  function Dirs(path: seq<Step>): seq<bool> { seq(|path|, i requires 0 <= i < |path| => path[i].dir) }

  lemma {:induction false} RekeyDirs(c: Context, z: nat, k: nat)
    ensures Dirs(PathTo(Rekey(c, z, k))) == Dirs(PathTo(c)) && |PathTo(Rekey(c, z, k))| == |PathTo(c)|
  {
    if c.Frame? {
      RekeyDirs(c.up, z, k);
      var c' := Rekey(c, z, k);
      assert PathTo(c') == PathTo(c'.up) + [Step(Link(c'.key, c.dir), c.dir)];
      assert Dirs(PathTo(c')) == Dirs(PathTo(c'.up)) + [c.dir];
      assert Dirs(PathTo(c)) == Dirs(PathTo(c.up)) + [c.dir];
    }
  }

  /** Each entry of a path is the link out of the node its predecessor refers to. */
  lemma {:induction false} PathLinks(m: Store, c: Context, v: nat, i: nat)
    requires HoldsContext(m, c, v) && 0 < i < |PathTo(c)|
    ensures PathTo(c)[i] == Step(Link(m.Get(PathTo(c)[i - 1].node), PathTo(c)[i].dir), PathTo(c)[i].dir)
  {
    SlotHolds(m, c.up, c.key);
    if i < |PathTo(c)| - 1 { PathLinks(m, c.up, c.key, i); }
  }

  /** `RBPath::fixup`: rewalks the path with the directions it has. */
  method Fixup(m: Store, path0: seq<Step>, ghost c: Context, ghost v: nat) returns (path: seq<Step>)
    requires HoldsContext(m, c, v) && |path0| == |PathTo(c)| && Dirs(path0) == Dirs(PathTo(c)) && path0[0].node == Root
    ensures path == PathTo(c)
  {
    hide HoldsContext, PathTo;
    path := path0;
    ghost var p := PathTo(c);
    RootFirst(c);
    assert forall j :: 0 <= j < |p| ==> Dirs(path0)[j] == path0[j].dir && Dirs(p)[j] == p[j].dir;
    for i := 1 to |path|
      invariant |path| == |p| && path[..i] == p[..i]
      invariant forall j :: i <= j < |p| ==> path[j] == path0[j]
    {
      PathLinks(m, c, v, i);
      assert path[i - 1] == path[..i][i - 1] == p[i - 1];
      assert Dirs(path0)[i] == Dirs(p)[i];
      path := path[i := Step(Link(m.Get(path[i - 1].node), path[i].dir), path[i].dir)];
    }
  }

  lemma {:induction false} RootFirst(c: Context)
    ensures PathTo(c)[0] == Step(Root, false)
  {
    if c.Frame? { RootFirst(c.up); }
  }

  /** Taking the replacement's own link out: its left child moves up. */
  lemma Unlinked(m: Store, c: Context, t: Tree)
    requires Rep(m, c, t) && t.Node? && (Slot(c).Link? ==> Slot(c).key != 0)
    ensures Rep(m.Set(Slot(c), Key(t.left)), c, t.left)
    ensures m.Child(true, t.key) == Key(t.left) && m.IsRed(t.key) == t.red && t.key != 0
  {
    var m' := m.Set(Slot(c), Key(t.left));
    SetSlot(m, c, t.key, Key(t.left));
    HoldsFrame(m, m', t.left, Lo(c), t.key);
    Widen(t.left, Lo(c), t.key, Lo(c), Hi(c));
  }

  /** The replacement, already unlinked, takes over the cell and the place of `z`. */
  lemma TakenOver(m: Store, m': Store, c: Context, t: Tree, z: Tree, c0: Context)
    requires z.Node? && Replacement(c, t, z, c0) && Slot(c) != Slot(c0)
    requires Rep(m, c, t.left) && Ordered(t.left, Lo(c), t.key) && Lo(c) < t.key < Hi(c)
    requires (Slot(c0).Link? ==> Slot(c0).key != 0) && Only(m, m', c0, t.key, {t.key}) && m'.At(t.key) == m.At(z.key)
    ensures Rep(m', Rekey(c, z.key, t.key), t.left)
  {
    hide Only, SameOutside;
    ContextKeysOutside(c);
    if z.left.Node? {
      SpineOuter(m, c, Key(t.left), z, c0);
      TakenOverFrame(m, m', z.key, t.key, c0);
      HoldsFrame(m, m', t.left, Lo(c), t.key);
      RekeySpine(m, m', c, Key(t.left), z, c0, t.key);
    } else {
      TakenOverFrame(m, m', z.key, t.key, c0);
      RekeyRight(m, m', 0, z, c0, t.key);
    }
  }

  lemma TakenOverFrame(m: Store, m': Store, z: nat, k: nat, c: Context)
    requires HoldsContext(m, c, z) && OrderedContext(c) && Lo(c) < k < Hi(c)
    requires (Slot(c).Link? ==> Slot(c).key != 0) && Only(m, m', c, k, {k})
    ensures HoldsContext(m', c, k)
    ensures forall x: nat :: Lo(c) < x < Hi(c) && x != k ==> m'.At(x) == m.At(x)
  {
    SetSlot(m, c, z, k);
    Rewritten(m, m', c, z, k);
  }

  /** Facts about the replacement when it is not `z` itself. */
  lemma Apart(m: Store, c: Context, u: Tree, t: Tree, z: Tree, c0: Context)
    requires z.Node? && Replacement(c, t, z, c0) && Rep(m, c, u) && Lo(c) < t.key < Hi(c)
    requires z.left.Node? || z.right.Node?
    ensures m.Get(Slot(c0)) == z.key && z.key != 0 && z.key != t.key && t.key != 0
    ensures Slot(c) != Slot(c0) &&
      (Slot(c0).Link? ==> Slot(c0).key != 0 && Slot(c0).key != t.key && Slot(c0).key != z.key)
    ensures OrderedContext(c0) && HoldsContext(m, c0, z.key)
  {
    ContextKeysOutside(c);
    if z.left.Node? { SpineOuter(m, c, Key(u), z, c0); }
    SlotHolds(m, c0, z.key);
    SlotOutside(m, c0, z.key);
  }

  lemma SlotSame(c: Context, t: Tree, z: Tree, c0: Context, m: Store)
    requires z.Node? && Replacement(c, t, z, c0) && Rep(m, c, t)
    ensures t.Node? && (Slot(c) == Slot(c0) <==> z.left.Nil? && z.right.Nil?)
    ensures Lo(c) < t.key < Hi(c) && Ordered(t.left, Lo(c), t.key)
    ensures Slot(c).Link? ==> Slot(c).key != 0 && Slot(c).key != t.key
  {
    SlotOutside(m, c, t.key);
    if z.left.Node? || z.right.Node? { Apart(m, c, t, t, z, c0); }
  }

  /** What `z`'s place looks like afterwards. */
  ghost function Around(c: Context, t: Tree, z: Tree): Context
    requires z.Node? && t.Node?
  {
    if z.left.Nil? && z.right.Nil? then c else Rekey(c, z.key, t.key)
  }

  /** The splice of `remove_path`: the replacement is unlinked and put in the place of `z`. */
  method Splice(s: Store, splice: Ref, path: seq<Step>, ghost c: Context, ghost t: Tree, ghost z: Tree,
                ghost c0: Context)
    returns (m: Store, leafRed: bool, path': seq<Step>)
    requires z.Node? && Replacement(c, t, z, c0) && Rep(s, c, t) && path == PathTo(c) && splice == Slot(c0)
    ensures leafRed == t.red
    ensures Rep(m, Around(c, t, z), t.left) && path' == PathTo(Around(c, t, z))
  {
    hide Rep, Replacement, OrderedContext, HoldsContext, Ordered, PathTo, Rekey, Store.Set, Store.SetRed, Store.At,
      Dirs;
    SlotSame(c, t, z, c0, s);
    Unlinked(s, c, t);
    AtEnd(s, c, t);
    path' := path;
    var last := path[|path| - 1].node;
    var curr := s.Get(last);
    m := s.Set(last, s.Child(true, curr));
    leafRed := m.IsRed(curr);
    if last != splice {
      ghost var m1 := m;
      Apart(m, c, t.left, t, z, c0);
      m := m.SetRed(curr, m.IsRed(m.Get(splice)));
      m := m.Set(Link(curr, true), m.Child(true, m.Get(splice)));
      m := m.Set(Link(curr, false), m.Child(false, m.Get(splice)));
      m := m.Set(splice, curr);
      TakenOver(m1, m, c, t, z, c0);
      RekeyDirs(c, z.key, t.key);
      RootFirst(c);
      RepContext(m, Rekey(c, z.key, t.key), t.left);
      path' := Fixup(m, path, Rekey(c, z.key, t.key), Key(t.left));
    }
  }

  lemma RepContext(m: Store, c: Context, t: Tree)
    requires Rep(m, c, t)
    ensures HoldsContext(m, c, Key(t))
  {
  }

  // ---------- removal: restoring the balance ----------

  /** What the context of a hole that is one black node short says about its sibling. */
  lemma SiblingFacts(m: Store, c: Context, t: Tree, b: nat)
    requires Rep(m, c, t) && c.Frame? && BalancedContext(c, b + 1)
    ensures c.sibling.Node? && m.Get(PathTo(c)[|PathTo(c)| - 2].node) == c.key
    ensures m.Child(!c.dir, c.key) == c.sibling.key && m.IsRed(c.sibling.key) == c.sibling.red &&
      m.IsRed(c.key) == c.red
    ensures forall d :: m.IsRed(m.Child(d, c.sibling.key)) == Red(Kid(d, c.sibling))
    ensures PathTo(c)[|PathTo(c)| - 1].dir == c.dir
  {
    ParentOf(m, c, t);
    var s := c.sibling;
    assert Holds(m, s.left) && Holds(m, s.right);
  }

  lemma RedSiblingBalance(c: Context, c': Context, b: nat)
    requires c.Frame? && BalancedContext(c, b + 1) && Red(c.sibling)
    requires c' == Frame(c.dir, c.key, true, Kid(c.dir, c.sibling),
                         Frame(c.dir, c.sibling.key, false, Kid(!c.dir, c.sibling), c.up))
    ensures !c.red && BalancedContext(c', b + 1) && Total(c', b + 1) == Total(c, b + 1)
    ensures ContextKeys(c') == ContextKeys(c)
  {
    var s := c.sibling;
    assert Balanced(s.left, b + 1) && Balanced(s.right, b + 1);
    assert ContextKeys(c) == Keys(s) + {c.key} + ContextKeys(c.up);
    assert ContextKeys(c'.up) == Keys(Kid(!c.dir, s)) + {s.key} + ContextKeys(c.up);
  }

  lemma FarBalance(c: Context, t: Tree, b: nat, t': Tree)
    requires c.Frame? && BalancedContext(c, b + 1) && Balanced(t, b) && c.sibling.Node? && !Red(c.sibling)
    requires Red(Kid(!c.dir, c.sibling))
    requires t' == Mk(c.dir, Mk(c.dir, t, c.key, false, Kid(c.dir, c.sibling)), c.sibling.key, c.red,
                      Kid(!c.dir, c.sibling).(red := false))
    ensures Finished(c, t, b, t')
  {
    assert BalancedContext(c.up, if c.red then b + 1 else b + 2);
    var s := c.sibling;
    var rn := Kid(!c.dir, s);
    assert Balanced(s.left, b) && Balanced(s.right, b);
    assert Balanced(rn.left, b) && Balanced(rn.right, b);
    assert Keys(s) == Keys(s.left) + {s.key} + Keys(s.right) && Keys(rn) == Keys(rn.(red := false));
    assert Keys(t') == Keys(Mk(c.dir, t, c.key, false, Kid(c.dir, s))) + {s.key} + Keys(rn.(red := false));
    assert ContextKeys(c) == Keys(s) + {c.key} + ContextKeys(c.up);
    assert Balanced(Mk(c.dir, t, c.key, false, Kid(c.dir, s)), b + 1) && Balanced(rn.(red := false), b + 1);
  }

  lemma NearBalance(c: Context, t: Tree, b: nat, t': Tree)
    requires c.Frame? && BalancedContext(c, b + 1) && Balanced(t, b) && c.sibling.Node? && !Red(c.sibling)
    requires Red(Kid(c.dir, c.sibling))
    requires var rn := Kid(c.dir, c.sibling);
      t' == Mk(c.dir, Mk(c.dir, t, c.key, false, Kid(c.dir, rn)), rn.key, c.red,
               Mk(c.dir, Kid(!c.dir, rn), c.sibling.key, c.sibling.red, Kid(!c.dir, c.sibling)))
    ensures Finished(c, t, b, t')
  {
    assert BalancedContext(c.up, if c.red then b + 1 else b + 2);
    var s := c.sibling;
    var rn := Kid(c.dir, s);
    assert Balanced(s.left, b) && Balanced(s.right, b);
    assert Balanced(rn.left, b) && Balanced(rn.right, b);
    assert Keys(s) == Keys(s.left) + {s.key} + Keys(s.right) && Keys(rn) == Keys(rn.left) + {rn.key} + Keys(rn.right);
    assert ContextKeys(c) == Keys(s) + {c.key} + ContextKeys(c.up);
    assert Keys(t') == Keys(Mk(c.dir, t, c.key, false, Kid(c.dir, rn))) + {rn.key}
                     + Keys(Mk(c.dir, Kid(!c.dir, rn), s.key, s.red, Kid(!c.dir, s)));
    assert Balanced(Mk(c.dir, t, c.key, false, Kid(c.dir, rn)), b + 1);
    assert Balanced(Mk(c.dir, Kid(!c.dir, rn), s.key, s.red, Kid(!c.dir, s)), b + 1);
  }

  /** `t'`, in the place of the parent, has the black depth its context needs, and the same keys. */
  ghost predicate Finished(c: Context, t: Tree, b: nat, t': Tree)
    requires c.Frame?
  {
    var b' := if c.red then b + 1 else b + 2;
    && Balanced(t', b') && BalancedContext(c.up, b') && (Red(t') ==> c.up.Frame? && !c.up.red)
    && Contents(c.up, t') == Contents(c, t)
  }

  lemma RecolourBalance(c: Context, t: Tree, b: nat, t': Tree)
    requires c.Frame? && BalancedContext(c, b + 1) && Balanced(t, b) && c.sibling.Node? && !Red(c.sibling)
    requires !Red(c.sibling.left) && !Red(c.sibling.right)
    requires t' == Mk(c.dir, t, c.key, false, c.sibling.(red := true))
    ensures Balanced(t', b + 1) && !Red(t') && Contents(c.up, t') == Contents(c, t)
    ensures BalancedContext(c.up, if c.red then b + 1 else b + 2)
    ensures Total(c.up, if c.red then b + 1 else b + 2) == Total(c, b + 1)
  {
    var s := c.sibling;
    assert Balanced(s.left, b) && Balanced(s.right, b);
    assert Keys(s) == Keys(s.(red := true));
  }

  /** The double-black loop of `remove_path`, from a hole that is one black node short. */
  method Rebalance(s: Store, path0: seq<Step>, ghost c0: Context, ghost t0: Tree, ghost b0: nat)
    returns (m: Store, ghost tree: Tree, ghost blacks: nat)
    requires Rep(s, c0, t0) && path0 == PathTo(c0)
    requires Balanced(t0, b0) && BalancedContext(c0, b0 + 1) && Total(c0, b0 + 1) <= 63 && (c0.Top? ==> !Red(t0))
    ensures Rep(m, Top, tree) && ValidTree(tree, blacks) && Keys(tree) == Contents(c0, t0)
  {
    hide Rep, PathTo, Balanced, BalancedContext, Contents, ValidTree, Keys, Total;
    m := s;
    var path := path0;
    ghost var c, t, b := c0, t0, b0;
    while path[|path| - 1].node != Root
      invariant Rep(m, c, t) && path == PathTo(c) && Contents(c, t) == Contents(c0, t0)
      invariant Balanced(t, b) && BalancedContext(c, b + 1) && Total(c, b + 1) <= 63 && (c.Top? ==> !Red(t))
      decreases if ParentRed(c) then 0 else Depth(c) + 1
    {
      DepthBound(c, b + 1);
      SiblingFacts(m, c, t, b);
      SiblingColour(c, b);
      var parent := m.Get(path[|path| - 2].node);
      var curDir := path[|path| - 1].dir;
      var sibling := m.Child(!curDir, parent);
      if m.IsRed(sibling) {
        ghost var c' := c;
        m, path, c := RedSibling(m, path, c, t);
        RedSiblingBalance(c', c, b);
        SameContents(c', c, t);
      } else if m.IsRed(m.Child(!curDir, sibling)) {
        ghost var t';
        m, t' := FarNibling(m, path, c, t);
        FarBalance(c, t, b, t');
        tree, blacks := Finish(m, c, t, b, t');
        return;
      } else if m.IsRed(m.Child(curDir, sibling)) {
        ghost var t';
        m, t' := NearNibling(m, path, c, t);
        NearBalance(c, t, b, t');
        tree, blacks := Finish(m, c, t, b, t');
        return;
      } else {
        ghost var t';
        var stop := m.IsRed(parent);
        m, t' := Recolour(m, path, c, t);
        RecolourBalance(c, t, b, t');
        if stop {
          tree, blacks := Plug(c.up, t'), Total(c.up, b + 1);
          Whole(m, c.up, t', b + 1);
          return;
        }
        path := path[..|path| - 1];
        Popped(c);
        c, t, b := c.up, t', b + 1;
      }
    }
    tree, blacks := t, Total(Top, b);
    Whole(m, Top, t, b);
  }

  lemma SiblingColour(c: Context, b: nat)
    requires c.Frame? && BalancedContext(c, b + 1)
    ensures Red(c.sibling) ==> !ParentRed(c)
  {
  }

  lemma SameContents(c: Context, c': Context, t: Tree)
    requires ContextKeys(c) == ContextKeys(c')
    ensures Contents(c, t) == Contents(c', t)
  {
  }

  lemma Popped(c: Context)
    requires c.Frame?
    ensures PathTo(c)[..|PathTo(c)| - 1] == PathTo(c.up)
  {
  }

  lemma Finish(m: Store, c: Context, t: Tree, b: nat, t': Tree) returns (tree: Tree, blacks: nat)
    requires c.Frame? && Rep(m, c.up, t') && Finished(c, t, b, t')
    ensures Rep(m, Top, tree) && ValidTree(tree, blacks) && Keys(tree) == Contents(c, t)
  {
    blacks := if c.red then b + 1 else b + 2;
    Whole(m, c.up, t', blacks);
    tree, blacks := Plug(c.up, t'), Total(c.up, blacks);
  }

  lemma Leftmost(m: Store, c: Context, t: Tree)
    requires Rep(m, c, t) && t.Node? && forall k <- ContextKeys(c) :: Hi(c) <= k
    ensures forall k <- ContextKeys(Below(true, c, t)) :: t.key <= k
    ensures t.left.Nil? ==> forall k <- Keys(t) + ContextKeys(c) :: t.key <= k
  {
    OrderedKeys(t.right, t.key, Hi(c));
  }

  /** The balance around the replacement, and the keys without `z`. */
  lemma SpliceBalance(m: Store, c: Context, t: Tree, z: Tree, c0: Context, total: nat) returns (b: nat)
    requires z.Node? && Replacement(c, t, z, c0) && Plug(c, t) == Plug(c0, z) && ValidTree(Plug(c, t), total)
    requires Rep(m, c, t) && Small(Plug(c, t))
    ensures var c' := Around(c, t, z);
      && BalancedContext(c', b) && Contents(c', t.left) == Keys(Plug(c0, z)) - {z.key} && Total(c', b) <= 63
      && if t.red then Balanced(t.left, b) && !Red(t.left)
         else b > 0 && Balanced(t.left, b - 1) && (c'.Top? ==> !Red(t.left))
  {
    hide HoldsContext, Holds;
    b := Unplug(c, t, total);
    PlugKeys(c, t);
    PathFits(Plug(c, t), total, c, b);
    BlacksBound(total, Plug(c, t));
    SpliceKeys(c, t, z, c0, b);
    assert Balanced(t.left, if t.red then b else b - 1);
  }

  lemma BlacksBound(b: nat, t: Tree)
    requires Pow2(b) <= |Keys(t)| + 1 && Small(t)
    ensures b <= 63
  {
    if b > 63 {
      Pow2Mono(64, b);
      assert false;
    }
  }

  lemma SpliceKeys(c: Context, t: Tree, z: Tree, c0: Context, b: nat)
    requires z.Node? && Replacement(c, t, z, c0) && OrderedContext(c) && Ordered(t, Lo(c), Hi(c)) &&
      BalancedContext(c, b)
    ensures var c' := Around(c, t, z);
      && BalancedContext(c', b) && Total(c', b) == Total(c, b) && (c'.Top? ==> c.Top? && t == z && t.left == Nil)
      && Contents(c', t.left) == Keys(t) + ContextKeys(c) - {z.key}
  {
    ContextKeysOutside(c);
    OrderedKeys(t.left, Lo(c), t.key);
    assert Keys(t) == Keys(t.left) + {t.key};
    if z.left.Node? {
      SpineKeys(c, z, c0);
      RekeyKeeps(c, z, c0, t.key, b);
    } else if z.right.Node? {
      RekeyKeeps(c, z, c0, t.key, b);
    }
  }
}
