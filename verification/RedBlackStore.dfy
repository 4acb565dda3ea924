/**
 * The node store under the red-black tree: two child words and a colour for each address, and
 * references to a child word or to the root. What it means for the store to hold a tree, or the
 * context around a path, and which writes leave that alone.
 */
module RedBlackStore {
  import opened RedBlackTree

  datatype Cell = Cell(left: nat, right: nat, red: bool)

  /** A reference to a word holding a child: the root, or one child of a node. */
  datatype Ref = Root | Link(key: nat, dir: bool)

  datatype Step = Step(node: Ref, dir: bool)

  function Side(dir: bool, a: nat, red: bool, b: nat): Cell {
    if dir then Cell(a, b, red) else Cell(b, a, red)
  }

  datatype Store = Store(root: nat, cells: map<nat, Cell>) {
    // The null node reads as black with null children, and is never written.
    function At(k: nat): Cell {
      if k != 0 && k in cells then cells[k] else Cell(0, 0, false)
    }

    function Child(dir: bool, k: nat): nat { if dir then At(k).left else At(k).right }

    predicate IsRed(k: nat) { At(k).red }

    function Get(r: Ref): nat {
      match r
      case Root => root
      case Link(k, dir) => Child(dir, k)
    }

    function Set(r: Ref, v: nat): (m: Store)
      requires r.Link? ==> r.key != 0
      ensures m.root == if r.Root? then v else root
      ensures r.Root? ==> forall x: nat {:trigger m.At(x)} :: m.At(x) == At(x)
      ensures r.Link? ==> m.At(r.key) == (if r.dir then At(r.key).(left := v) else At(r.key).(right := v))
      ensures r.Link? ==> forall x: nat {:trigger m.At(x)} :: x != r.key ==> m.At(x) == At(x)
    {
      match r
      case Root => this.(root := v)
      case Link(k, dir) =>
        this.(cells := cells[k := if dir then At(k).(left := v) else At(k).(right := v)])
    }

    function SetRed(k: nat, red: bool): (m: Store)
      requires k != 0
      ensures m.root == root
      ensures m.At(k) == At(k).(red := red) && forall x: nat {:trigger m.At(x)} :: x != k ==> m.At(x) == At(x)
    {
      this.(cells := cells[k := At(k).(red := red)])
    }
  }

  // ---------- representation ----------

  ghost predicate Holds(m: Store, t: Tree) {
    t.Node? ==>
      && t.key != 0 && m.At(t.key) == Cell(Key(t.left), Key(t.right), t.red)
      && Holds(m, t.left) && Holds(m, t.right)
  }

  /** The store holds the context, with `v` in its hole. */
  ghost predicate HoldsContext(m: Store, c: Context, v: nat) {
    match c
    case Top => m.root == v
    case Frame(dir, k, red, s, up) =>
      k != 0 && m.At(k) == Side(dir, v, red, Key(s)) && Holds(m, s) && HoldsContext(m, up, k)
  }

  /** The store holds `t` in the hole of `c`, in search order. */
  ghost predicate Rep(m: Store, c: Context, t: Tree) {
    && OrderedContext(c) && Ordered(t, Lo(c), Hi(c))
    && HoldsContext(m, c, Key(t)) && Holds(m, t)
  }

  function Slot(c: Context): Ref {
    if c.Top? then Root else Link(c.key, c.dir)
  }

  /** The path array that leads to the hole of `c`. */
  function PathTo(c: Context): (p: seq<Step>)
    ensures |p| == Depth(c) + 1 && p[Depth(c)].node == Slot(c)
  {
    match c
    case Top => [Step(Root, false)]
    case Frame(dir, k, _, _, up) => PathTo(up) + [Step(Link(k, dir), dir)]
  }

  // The path array's fixed size.
  const CAPACITY := 128

  function Push(path: seq<Step>, node: Ref, dir: bool): seq<Step>
    requires |path| < CAPACITY
  {
    path + [Step(node, dir)]
  }

  // ---------- framing ----------

  ghost predicate SameInside(m: Store, m': Store, lo: int, hi: int) {
    forall x: nat :: lo < x < hi ==> m'.At(x) == m.At(x)
  }

  ghost predicate SameOutside(m: Store, m': Store, lo: int, hi: int) {
    m'.root == m.root && forall x: nat :: x <= lo || hi <= x ==> m'.At(x) == m.At(x)
  }

  lemma HoldsFrame(m: Store, m': Store, t: Tree, lo: int, hi: int)
    requires Holds(m, t) && Ordered(t, lo, hi) && SameInside(m, m', lo, hi)
    ensures Holds(m', t)
  {
    if t.Node? {
      HoldsFrame(m, m', t.left, lo, t.key);
      HoldsFrame(m, m', t.right, t.key, hi);
    }
  }

  lemma ContextFrame(m: Store, m': Store, c: Context, v: nat)
    requires HoldsContext(m, c, v) && OrderedContext(c) && SameOutside(m, m', Lo(c), Hi(c))
    ensures HoldsContext(m', c, v)
  {
    if c.Frame? {
      ContextKeysOutside(c);
      ContextKeysOutside(c.up);
      ContextFrame(m, m', c.up, c.key);
      if c.dir { HoldsFrame(m, m', c.sibling, c.key, Hi(c.up)); }
      else { HoldsFrame(m, m', c.sibling, Lo(c.up), c.key); }
    }
  }

  /** Writing the word a context's hole stands for. */
  lemma SetSlot(m: Store, c: Context, u: nat, v: nat)
    requires HoldsContext(m, c, u) && OrderedContext(c)
    ensures (Slot(c).Link? ==> Slot(c).key != 0 && (Slot(c).key <= Lo(c) || Hi(c) <= Slot(c).key))
    ensures HoldsContext(m.Set(Slot(c), v), c, v)
  {
    if c.Frame? {
      var m' := m.Set(Slot(c), v);
      ContextKeysOutside(c.up);
      ContextFrame(m, m', c.up, c.key);
      if c.dir { HoldsFrame(m, m', c.sibling, c.key, Hi(c.up)); }
      else { HoldsFrame(m, m', c.sibling, Lo(c.up), c.key); }
    }
  }

  /** A local rewrite: new words inside the hole's interval, and a new top of the subtree. */
  lemma Rewritten(m: Store, m': Store, c: Context, u: nat, v: nat)
    requires HoldsContext(m, c, u) && OrderedContext(c)
    requires Slot(c).Link? ==> Slot(c).key != 0
    requires SameOutside(m.Set(Slot(c), v), m', Lo(c), Hi(c))
    ensures HoldsContext(m', c, v)
  {
    SetSlot(m, c, u, v);
    ContextFrame(m.Set(Slot(c), v), m', c, v);
  }

  lemma SlotHolds(m: Store, c: Context, v: nat)
    requires HoldsContext(m, c, v)
    ensures m.Get(Slot(c)) == v
  {
  }

  // ---------- moving the hole ----------

  function Fold(c: Context, t: Tree): Tree
    requires c.Frame?
  {
    Mk(c.dir, t, c.key, c.red, c.sibling)
  }

  /** Going up one step of the path. */
  lemma GoUp(m: Store, c: Context, t: Tree)
    requires c.Frame? && Rep(m, c, t)
    ensures Rep(m, c.up, Fold(c, t)) && Fold(c, t).key == c.key &&
      PathTo(c) == PathTo(c.up) + [Step(Link(c.key, c.dir), c.dir)]
    ensures m.Get(Slot(c)) == Key(t) && m.Get(Slot(c.up)) == c.key && c.key != 0
    ensures Lo(c.up) < c.key < Hi(c.up)
  {
    SlotHolds(m, c.up, c.key);
  }

  function Below(dir: bool, c: Context, t: Tree): Context
    requires t.Node?
  {
    Frame(dir, t.key, t.red, Kid(!dir, t), c)
  }

  /** Going down one step in direction `dir`. */
  lemma GoDown(m: Store, c: Context, t: Tree, dir: bool)
    requires t.Node? && Rep(m, c, t)
    ensures Rep(m, Below(dir, c, t), Kid(dir, t))
    ensures Plug(Below(dir, c, t), Kid(dir, t)) == Plug(c, t)
    ensures m.Child(dir, t.key) == Key(Kid(dir, t)) && m.Get(Slot(c)) == t.key
  {
  }

  /** A rewritten subtree in an unchanged context. */
  lemma Replaced(m: Store, m': Store, c: Context, t: Tree, t': Tree)
    requires Rep(m, c, t) && Ordered(t', Lo(c), Hi(c)) && Holds(m', t')
    requires Slot(c).Link? ==> Slot(c).key != 0
    requires SameOutside(m.Set(Slot(c), Key(t')), m', Lo(c), Hi(c))
    ensures Rep(m', c, t')
  {
    Rewritten(m, m', c, Key(t), Key(t'));
  }

  /** Writes elsewhere leave the subtrees of a node alone. */
  lemma KidsFrame(m: Store, m': Store, t: Tree, lo: int, hi: int)
    requires t.Node? && Holds(m, t) && Ordered(t, lo, hi)
    requires forall x: nat :: lo < x < hi && x != t.key ==> m'.At(x) == m.At(x)
    ensures Holds(m', t.left) && Holds(m', t.right)
  {
    HoldsFrame(m, m', t.left, lo, t.key);
    HoldsFrame(m, m', t.right, t.key, hi);
  }

  /** From `m` to `m'` only the cells `ks` and the word in the hole of `c` were written, the latter to `v`. */
  ghost predicate Only(m: Store, m': Store, c: Context, v: nat, ks: set<nat>)
    requires Slot(c).Link? ==> Slot(c).key != 0
  {
    && m'.root == m.Set(Slot(c), v).root
    && forall x: nat {:trigger m'.At(x)} :: x !in ks ==> m'.At(x) == m.Set(Slot(c), v).At(x)
  }

  lemma OnlyFrame(m: Store, m': Store, c: Context, t: Tree, v: nat, ks: set<nat>)
    requires Rep(m, c, t) && (Slot(c).Link? ==> Slot(c).key != 0) && Only(m, m', c, v, ks)
    requires forall k <- ks :: Lo(c) < k < Hi(c)
    ensures SameOutside(m.Set(Slot(c), v), m', Lo(c), Hi(c))
    ensures forall x: nat :: Lo(c) < x < Hi(c) && x !in ks ==> m'.At(x) == m.At(x)
  {
    hide Store.At, Store.Set;
    SetSlot(m, c, Key(t), v);
  }
}
