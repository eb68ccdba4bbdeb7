/** The node, root and path objects of the compact red-black tree, and what it means that they
    hold a tree value, a context or a path. */
module CompactHeap {
  import opened Trees
  import opened Zippers
  import opened PackedWord

  class RbNode {
    const key: int
    var left: Word<RbNode?>
    var right: Word<RbNode?>

    constructor (key: int)
      ensures this.key == key
    {
      this.key := key;
      left, right := Word(null, Red), Word(null, Red);
    }

    function Child(d: Dir): RbNode?
      reads this
    {
      if d.Left? then left.ptr else right.ptr
    }

    function Color(): Color
      reads this
    {
      left.bit
    }

    method SetChild(d: Dir, child: RbNode?)
      modifies this
      ensures Child(d) == child && Child(d.Flip()) == old(Child(d.Flip()))
      ensures left.bit == old(left.bit) && right.bit == old(right.bit)
    {
      if d.Left? {
        left := left.(ptr := child);
      } else {
        right := right.(ptr := child);
      }
    }

    method SetLeftChildColor(child: RbNode?, color: Color)
      modifies this
      ensures left == Word(child, color) && right == old(right)
    {
      left := Word(child, color);
    }

    /** Stores a bare pointer, whose low bit is clear. */
    method SetRightChild(child: RbNode?)
      modifies this
      ensures right == Word(child, Red) && left == old(left)
    {
      right := Word(child, Red);
    }

    method CopyLeftChildColor(src: RbNode)
      modifies this
      ensures left == old(src.left) && right == old(right)
    {
      left := src.left;
    }

    method CopyRightChild(src: RbNode)
      modifies this
      ensures right == old(src.right) && left == old(left)
    {
      right := src.right;
    }

    method SetColor(color: Color)
      modifies this
      ensures left == Word(old(left.ptr), color) && right == old(right)
    {
      left := left.(bit := color);
    }
  }

  /** The tree's root pointer. The ghost fields are the tree value that the pointer stands for and the
      number of rotations that the tree has seen. */
  class Root {
    var root: RbNode?
    ghost var tree: Tree<RbNode>
    ghost var turns: nat

    constructor ()
      ensures root == null && tree == Leaf && turns == 0
    {
      root, tree, turns := null, Leaf, 0;
    }
  }

  /** The ancestor stack. Entry 0 is a sentinel whose parent is null and whose direction is never set. */
  class Path {
    const path: array<Entry<RbNode?>>
    var cur: nat

    constructor (capacity: nat)
      requires capacity > 0
      ensures fresh(path) && path.Length == capacity && Tracks(Top)
    {
      path := new Entry<RbNode?>[capacity](_ => Entry(null, Left));
      cur := 0;
    }

    method Init()
      requires path.Length > 0
      modifies this, path
      ensures Tracks(Top)
    {
      cur := 0;
      path[0] := Entry(null, path[0].dir);
    }

    /** The live prefix of the stack is exactly the chain of ancestors of the focus. */
    ghost predicate Tracks(c: Ctx<RbNode>)
      reads this, path
    {
      && cur == Depth(c) && cur < path.Length
      && path[0].parent == null
      && path[1..cur + 1] == PathOf(c)
    }

    method Push(parent: RbNode, dir: Dir, ghost f: Frame<RbNode>, ghost c: Ctx<RbNode>)
      requires Tracks(c) && cur + 1 < path.Length && f.item.id == parent && f.dir == dir
      modifies this, path
      ensures Tracks(In(f, c))
    {
      cur := cur + 1;
      path[cur] := Entry(parent, dir);
    }

    method Pop(ghost c: Ctx<RbNode>)
      requires c.In? && Tracks(c)
      modifies this`cur
      ensures Tracks(c.up)
    {
      cur := cur - 1;
      assert path[1..cur + 1] == path[1..cur + 2][..cur];
    }

    method PopTwo(ghost c: Ctx<RbNode>)
      requires c.In? && c.up.In? && Tracks(c)
      modifies this`cur
      ensures Tracks(c.up.up)
    {
      Pop(c);
      Pop(c.up);
    }

    /** Case 1 of removal: a copy of the top entry goes on top, and the old top entry names `parent`. */
    method InsertBelowTop(parent: RbNode, dir: Dir, ghost c: Ctx<RbNode>, ghost c': Ctx<RbNode>)
      requires Tracks(c) && c.In? && cur + 1 < path.Length
      requires c'.In? && c'.up.In? && c'.up.up == c.up
      requires c'.frame.item.id == c.frame.item.id && c'.frame.dir == c.frame.dir
      requires c'.up.frame.item.id == parent && c'.up.frame.dir == dir
      modifies this, path
      ensures Tracks(c')
    {
      TopEntry(c);
      ghost var up, n := PathOf(c.up), cur;
      assert path[1..n] == path[1..n + 1][..n - 1] == up;
      assert PathOf(c'.up) == up + [Entry(parent, dir)];
      path[cur + 1] := path[cur];
      path[cur] := Entry(parent, dir);
      cur := cur + 1;
      assert path[1..n] == up && path[1..n + 2] == path[1..n] + [path[n]] + [path[n + 1]];
    }

    /** The entry number `k` gets a new ancestor and keeps its direction. */
    method Patch(k: nat, parent: RbNode, ghost inner: Ctx<RbNode>, ghost f: Frame<RbNode>, ghost c: Ctx<RbNode>)
      requires Tracks(Append(inner, In(f, c))) && k == Depth(c) + 1 && f.dir == Right
      modifies path
      ensures Tracks(Append(inner, In(f.(item := Item(parent, parent.key)), c)))
    {
      PathRelabel(inner, f, Item(parent, parent.key), c);
      ghost var was := path[1..cur + 1];
      assert path[k] == was[k - 1];
      path[k] := Entry(parent, path[k].dir);
      assert path[1..cur + 1] == was[k - 1 := Entry(parent, Right)];
    }

    /** The top entry names the parent of the focus; at the root it is null. */
    lemma TopEntry(c: Ctx<RbNode>)
      requires Tracks(c)
      ensures if c.Top? then path[cur].parent == null
              else path[cur] == Entry(c.frame.item.id, c.frame.dir) && cur >= 1
    {
      if c.In? {
        assert path[cur] == path[1..cur + 1][cur - 1];
      }
    }

    /** Lower entries name the ancestors further up. */
    lemma NextEntry(c: Ctx<RbNode>)
      requires c.In? && Tracks(c)
      ensures if c.up.Top? then path[cur - 1].parent == null
              else path[cur - 1] == Entry(c.up.frame.item.id, c.up.frame.dir) && cur >= 2
    {
      assert PathOf(c.up) == PathOf(c)[..cur - 1];
      if c.up.In? {
        assert path[cur - 1] == path[1..cur + 1][cur - 2];
      }
    }

    lemma ThirdEntry(c: Ctx<RbNode>)
      requires c.In? && c.up.In? && Tracks(c)
      ensures if c.up.up.Top? then path[cur - 2].parent == null
              else path[cur - 2] == Entry(c.up.up.frame.item.id, c.up.up.frame.dir)
    {
      assert PathOf(c.up) == PathOf(c)[..cur - 1];
      assert PathOf(c.up.up) == PathOf(c.up)[..cur - 2];
      if c.up.up.In? {
        assert path[cur - 2] == path[1..cur + 1][cur - 3];
      }
    }
  }

  // ---------- tree values in the heap ----------

  /** Objects that a tree value mentions exist already, so no allocation can disturb what it says. */
  lemma {:induction false} IdsAllocated(t: Tree<RbNode>)
    ensures forall n :: n in Ids(t) ==> allocated(n)
  {
    if t.Branch? {
      IdsAllocated(t.left);
      IdsAllocated(t.right);
    }
  }

  lemma {:induction false} CtxIdsAllocated(c: Ctx<RbNode>)
    ensures forall n :: n in CtxIds(c) ==> allocated(n)
  {
    if c.In? {
      IdsAllocated(c.frame.sibling);
      CtxIdsAllocated(c.up);
    }
  }

  function Ptr(t: Tree<RbNode>): RbNode? {
    if t.Leaf? then null else t.item.id
  }

  /** The node object carries the item and the colour, and its right word's bit is clear. */
  ghost predicate Carries(x: Item<RbNode>, c: Color)
    reads x.id
  {
    x.id.key == x.key && x.id.left.bit == c && x.id.right.bit == Red
  }

  /** The objects of `t` form exactly the tree `t`. */
  ghost predicate Linked(t: Tree<RbNode>)
    reads Ids(t)
    decreases t
  {
    t.Branch? ==>
      && Carries(t.item, t.color)
      && t.item.id.left.ptr == Ptr(t.left) && t.item.id.right.ptr == Ptr(t.right)
      && Linked(t.left) && Linked(t.right)
  }

  /** The objects of the context `c` form exactly that context, with `hole` at its hole. */
  ghost predicate CtxLinked(c: Ctx<RbNode>, hole: RbNode?)
    reads CtxIds(c)
    decreases c
  {
    c.In? ==>
      var n := c.frame.item.id;
      && Carries(c.frame.item, c.frame.color)
      && n.Child(c.frame.dir) == hole && n.Child(c.frame.dir.Flip()) == Ptr(c.frame.sibling)
      && Linked(c.frame.sibling) && CtxLinked(c.up, n)
  }

  function RootPtr(c: Ctx<RbNode>, hole: RbNode?): RbNode? {
    if c.Top? then hole else RootPtr(c.up, c.frame.item.id)
  }

  /** Reading a child's colour through its pointer, as the code does, tells whether it is red. */
  lemma ChildColor(t: Tree<RbNode>, d: Dir)
    requires Linked(t) && t.Branch?
    ensures t.item.id.Child(d) == Ptr(t.Child(d))
    ensures t.Child(d).Branch? ==> t.Child(d).item.id.Color() == t.Child(d).color
  {
    assert Linked(t.Child(d));
  }

  lemma LinkedFill(f: Frame<RbNode>, up: Ctx<RbNode>, t: Tree<RbNode>)
    ensures Linked(Fill(f, t)) && CtxLinked(up, f.item.id) <==> CtxLinked(In(f, up), Ptr(t)) && Linked(t)
    ensures Ptr(Fill(f, t)) == f.item.id
  {
  }

  /** The heap holds a whole tree exactly when it holds its context and its focus. */
  lemma {:induction false} LinkedPlug(c: Ctx<RbNode>, t: Tree<RbNode>)
    ensures Linked(Plug(c, t)) <==> CtxLinked(c, Ptr(t)) && Linked(t)
    ensures Ptr(Plug(c, t)) == RootPtr(c, Ptr(t))
    decreases c
  {
    if c.In? {
      LinkedFill(c.frame, c.up, t);
      LinkedPlug(c.up, Fill(c.frame, t));
    }
  }

  /** Below the root the root pointer is an ancestor's. */
  lemma {:induction false} RootIsAbove(c: Ctx<RbNode>, hole: RbNode?)
    ensures c.In? ==> RootPtr(c, hole) != null && RootPtr(c, hole) in CtxIds(c)
    decreases c
  {
    if c.In? {
      RootIsAbove(c.up, c.frame.item.id);
    }
  }

  /** The heap below `root` is the zipper with context `c` and focus `t`. */
  ghost predicate Holds(root: Root, c: Ctx<RbNode>, t: Tree<RbNode>)
    reads root`root, CtxIds(c), Ids(t)
  {
    Apart(c, t) && CtxLinked(c, Ptr(t)) && Linked(t) && root.root == RootPtr(c, Ptr(t))
  }

  /** Moving the nearest frame between context and focus changes the view, not the heap. */
  lemma HoldsFill(root: Root, c: Ctx<RbNode>, t: Tree<RbNode>)
    requires c.In?
    ensures Holds(root, c, t) <==> Holds(root, c.up, Fill(c.frame, t))
    ensures CtxIds(c) + Ids(t) == CtxIds(c.up) + Ids(Fill(c.frame, t))
  {
    FillApart(c.frame, c.up, t);
    LinkedFill(c.frame, c.up, t);
  }

  /** So does moving the whole context. */
  lemma HoldsPlug(root: Root, c: Ctx<RbNode>, t: Tree<RbNode>)
    ensures Holds(root, c, t) <==> Holds(root, Top, Plug(c, t))
    ensures CtxIds(c) + Ids(t) == Ids(Plug(c, t))
  {
    PlugIds(c, t);
    LinkedPlug(c, t);
  }

  /** Two zippers of the same tree are two views of the same heap. */
  lemma HoldsMoved(root: Root, c: Ctx<RbNode>, t: Tree<RbNode>, c': Ctx<RbNode>, t': Tree<RbNode>)
    requires Holds(root, c, t) && Plug(c, t) == Plug(c', t')
    ensures Holds(root, c', t') && CtxIds(c') + Ids(t') == CtxIds(c) + Ids(t)
  {
    HoldsPlug(root, c, t);
    HoldsPlug(root, c', t');
  }

  // ---------- shared steps ----------

  /** Rotates the subtree at `node` and returns its new root; the caller hangs it in. No other method
      counts a rotation. */
  method RbRotate(ghost root: Root, node: RbNode, d: Dir, ghost t: Tree<RbNode>) returns (pivot: RbNode)
    requires Linked(t) && Distinct(t) && t.Branch? && node == t.item.id && t.Child(d.Flip()).Branch?
    modifies root`turns, t.item.id, t.Child(d.Flip()).item.id
    ensures Linked(Rotate(t, d)) && pivot == Ptr(Rotate(t, d))
    ensures root.turns == old(root.turns) + 1
  {
    root.turns := root.turns + 1;
    ghost var p := t.Child(d.Flip());
    ghost var a, b, c := t.Child(d), p.Child(d), p.Child(d.Flip());
    IdsAllocated(a);
    IdsAllocated(b);
    IdsAllocated(c);
    ghost var kept := Ids(a) + Ids(b) + Ids(c);
    assert node !in kept && p.item.id !in kept;
    assert Linked(a) && Linked(b) && Linked(c);
    pivot := node.Child(d.Flip());
    var inner := pivot.Child(d);
    node.SetChild(d.Flip(), inner);
    pivot.SetChild(d, node);
    assert Linked(a) && Linked(b) && Linked(c);
    assert Linked(Rotate(t, d).Child(d));
  }

  /** Hangs the subtree `t` into the hole that the path entry `e` describes: a child word of the
      parent, or the root pointer. Nothing else of the context changes. */
  method Hang(root: Root, e: Entry<RbNode?>, p: RbNode?,
              ghost c: Ctx<RbNode>, ghost hole: RbNode?, ghost t: Tree<RbNode>)
    requires CtxLinked(c, hole) && root.root == RootPtr(c, hole)
    requires Linked(t) && p == Ptr(t) && Apart(c, t)
    requires if c.Top? then e.parent == null else e == Entry(c.frame.item.id, c.frame.dir)
    modifies root`root, if c.Top? then {} else {c.frame.item.id}
    ensures Holds(root, c, t)
  {
    CtxIdsAllocated(c);
    IdsAllocated(t);
    if e.parent != null {
      e.parent.SetChild(e.dir, p);
    } else {
      root.root := p;
    }
  }
}
