/** The node and root objects of the parent-pointer red-black tree, what it means that they hold a
    tree value or a context, and the rotation in place. */
module ParentHeap {
  import opened Trees
  import opened Zippers
  import opened PackedWord

  class RbNode {
    const key: int
    var parentColor: Word<RbNode?>
    var left: RbNode?
    var right: RbNode?

    constructor (key: int)
      ensures this.key == key
    {
      this.key := key;
      parentColor, left, right := Word(null, Red), null, null;
    }

    function Child(d: Dir): RbNode?
      reads this
    {
      if d.Left? then left else right
    }

    function Parent(): RbNode?
      reads this
    {
      parentColor.ptr
    }

    function Color(): Color
      reads this
    {
      parentColor.bit
    }

    method SetChild(d: Dir, child: RbNode?)
      modifies this`left, this`right
      ensures Child(d) == child && Child(d.Flip()) == old(Child(d.Flip()))
    {
      if d.Left? {
        left := child;
      } else {
        right := child;
      }
    }

    method SetParent(parent: RbNode?)
      modifies this`parentColor
      ensures parentColor == Word(parent, old(parentColor.bit))
    {
      parentColor := parentColor.(ptr := parent);
    }

    method SetParentColor(parent: RbNode?, color: Color)
      modifies this`parentColor
      ensures parentColor == Word(parent, color)
    {
      parentColor := Word(parent, color);
    }

    method SetColor(color: Color)
      modifies this`parentColor
      ensures parentColor == Word(old(parentColor.ptr), color)
    {
      parentColor := parentColor.(bit := color);
    }
  }

  /** The tree's root pointer. The ghost fields are the tree value that the pointer stands for and the
      number of rotations that the tree has seen. */
  class Root {
    var root: RbNode?
    ghost var tree: Tree<RbNode>
    ghost var turns: nat

    constructor ()
      ensures root == null && tree == Leaf && turns == 0
    {
      root, tree, turns := null, Leaf, 0;
    }
  }

  // ---------- tree values in the heap ----------

  lemma {:induction false} IdsAllocated(t: Tree<RbNode>)
    ensures forall n :: n in Ids(t) ==> allocated(n)
  {
    if t.Branch? {
      IdsAllocated(t.left);
      IdsAllocated(t.right);
    }
  }

  lemma {:induction false} CtxIdsAllocated(c: Ctx<RbNode>)
    ensures forall n :: n in CtxIds(c) ==> allocated(n)
  {
    if c.In? {
      IdsAllocated(c.frame.sibling);
      CtxIdsAllocated(c.up);
    }
  }

  function Ptr(t: Tree<RbNode>): RbNode? {
    if t.Leaf? then null else t.item.id
  }

  /** The node object carries the item and its whole word: colour and parent. */
  ghost predicate Carries(x: Item<RbNode>, c: Color, parent: RbNode?)
    reads x.id
  {
    x.id.key == x.key && x.id.parentColor == Word(parent, c)
  }

  /** The objects of `t` form exactly the tree `t`, and each of them names its parent; the root's
      parent is `parent`. */
  ghost predicate Linked(t: Tree<RbNode>, parent: RbNode?)
    reads Ids(t)
    decreases t
  {
    t.Branch? ==>
      && Carries(t.item, t.color, parent)
      && t.item.id.left == Ptr(t.left) && t.item.id.right == Ptr(t.right)
      && Linked(t.left, t.item.id) && Linked(t.right, t.item.id)
  }

  /** The parent of what hangs in the hole. `top` is the parent of the context's outermost node. */
  function Above(c: Ctx<RbNode>, top: RbNode?): RbNode? {
    if c.Top? then top else c.frame.item.id
  }

  ghost predicate CtxLinked(c: Ctx<RbNode>, hole: RbNode?, top: RbNode?)
    reads CtxIds(c)
    decreases c
  {
    c.In? ==>
      var n := c.frame.item.id;
      && Carries(c.frame.item, c.frame.color, Above(c.up, top))
      && n.Child(c.frame.dir) == hole && n.Child(c.frame.dir.Flip()) == Ptr(c.frame.sibling)
      && Linked(c.frame.sibling, n) && CtxLinked(c.up, n, top)
  }

  function RootPtr(c: Ctx<RbNode>, hole: RbNode?): RbNode? {
    if c.Top? then hole else RootPtr(c.up, c.frame.item.id)
  }

  lemma LinkedJoin(d: Dir, near: Tree<RbNode>, x: Item<RbNode>, color: Color, far: Tree<RbNode>, parent: RbNode?)
    ensures Linked(Join(d, near, x, color, far), parent)
            <==> && Carries(x, color, parent) && x.id.Child(d) == Ptr(near) && x.id.Child(d.Flip()) == Ptr(far)
                 && Linked(near, x.id) && Linked(far, x.id)
  {
  }

  lemma LinkedFill(f: Frame<RbNode>, up: Ctx<RbNode>, t: Tree<RbNode>, top: RbNode?)
    ensures Linked(Fill(f, t), Above(up, top)) && CtxLinked(up, f.item.id, top)
            <==> CtxLinked(In(f, up), Ptr(t), top) && Linked(t, f.item.id)
    ensures Ptr(Fill(f, t)) == f.item.id
  {
  }

  lemma {:induction false} LinkedPlug(c: Ctx<RbNode>, t: Tree<RbNode>, top: RbNode?)
    ensures Linked(Plug(c, t), top) <==> CtxLinked(c, Ptr(t), top) && Linked(t, Above(c, top))
    ensures Ptr(Plug(c, t)) == RootPtr(c, Ptr(t))
    decreases c
  {
    if c.In? {
      LinkedFill(c.frame, c.up, t, top);
      LinkedPlug(c.up, Fill(c.frame, t), top);
    }
  }

  lemma {:induction false} RootIsAbove(c: Ctx<RbNode>, hole: RbNode?)
    ensures c.In? ==> RootPtr(c, hole) != null && RootPtr(c, hole) in CtxIds(c)
    decreases c
  {
    if c.In? {
      RootIsAbove(c.up, c.frame.item.id);
    }
  }

  lemma ChildColor(t: Tree<RbNode>, d: Dir, parent: RbNode?)
    requires Linked(t, parent) && t.Branch?
    ensures t.item.id.Child(d) == Ptr(t.Child(d)) && Linked(t.Child(d), t.item.id)
    ensures t.Child(d).Branch? ==> t.Child(d).item.id.Color() == t.Child(d).color
  {
  }

  /** The heap below `root` is the zipper with context `c` and focus `t`. */
  ghost predicate Holds(root: Root, c: Ctx<RbNode>, t: Tree<RbNode>)
    reads root`root, CtxIds(c), Ids(t)
  {
    Apart(c, t) && CtxLinked(c, Ptr(t), null) && Linked(t, Above(c, null)) && root.root == RootPtr(c, Ptr(t))
  }

  lemma HoldsFill(root: Root, c: Ctx<RbNode>, t: Tree<RbNode>)
    requires c.In?
    ensures Holds(root, c, t) <==> Holds(root, c.up, Fill(c.frame, t))
    ensures CtxIds(c) + Ids(t) == CtxIds(c.up) + Ids(Fill(c.frame, t))
  {
    FillApart(c.frame, c.up, t);
    LinkedFill(c.frame, c.up, t, null);
  }

  lemma HoldsPlug(root: Root, c: Ctx<RbNode>, t: Tree<RbNode>)
    ensures Holds(root, c, t) <==> Holds(root, Top, Plug(c, t))
    ensures CtxIds(c) + Ids(t) == Ids(Plug(c, t))
  {
    PlugIds(c, t);
    LinkedPlug(c, t, null);
  }

  /** Two zippers of the same tree are two views of the same heap. */
  lemma HoldsMoved(root: Root, c: Ctx<RbNode>, t: Tree<RbNode>, c': Ctx<RbNode>, t': Tree<RbNode>)
    requires Holds(root, c, t) && Plug(c, t) == Plug(c', t')
    ensures Holds(root, c', t') && CtxIds(c') + Ids(t') == CtxIds(c) + Ids(t)
  {
    HoldsPlug(root, c, t);
    HoldsPlug(root, c', t');
  }

  /** The parent word of the focus names the nearest ancestor, and the focus hangs on the side of
      that ancestor which the context says, and on no other. */
  lemma FocusParent(root: Root, c: Ctx<RbNode>, t: Tree<RbNode>)
    requires Holds(root, c, t) && t.Branch?
    ensures t.item.id.Parent() == Above(c, null)
    ensures c.In? ==> c.frame.item.id.Color() == c.frame.color
    ensures c.In? ==> forall d: Dir :: c.frame.item.id.Child(d) == t.item.id <==> d == c.frame.dir
  {
    if c.In? {
      var n := c.frame.item.id;
      assert n.Child(c.frame.dir.Flip()) == Ptr(c.frame.sibling);
      assert c.frame.sibling.Branch? ==> c.frame.sibling.item.id in Ids(c.frame.sibling);
      assert t.item.id in Ids(t);
      forall d: Dir
        ensures n.Child(d) == t.item.id <==> d == c.frame.dir
      {
      }
    }
  }

  // ---------- links of the whole tree ----------

  /** In a tree held by the heap the links are mutual inverses: exactly the root has no parent, every
      other node is a child of its parent, and every child names its parent. */
  lemma {:induction false} LinksAreInverse(t: Tree<RbNode>, parent: RbNode?, n: RbNode)
    requires Linked(t, parent) && Distinct(t) && n in Ids(t)
    ensures n == t.item.id ==> n.Parent() == parent
    ensures n != t.item.id ==> n.Parent() != null && n.Parent() in Ids(t)
    ensures n != t.item.id ==> n.Parent().left == n || n.Parent().right == n
    ensures forall d: Dir :: n.Child(d) != null ==> n.Child(d) in Ids(t) && n.Child(d).Parent() == n
  {
    ChildColor(t, Left, parent);
    ChildColor(t, Right, parent);
    if n == t.item.id {
      forall d: Dir
        ensures n.Child(d) != null ==> n.Child(d) in Ids(t) && n.Child(d).Parent() == n
      {
        assert n.Child(d) == Ptr(t.Child(d)) && Linked(t.Child(d), n);
      }
    } else if n in Ids(t.left) {
      LinksAreInverse(t.left, t.item.id, n);
    } else {
      LinksAreInverse(t.right, t.item.id, n);
    }
  }

  // ---------- rotation ----------

  /** Gives the subtree below `child`, if there is one, a new parent. */
  method Adopt(child: RbNode?, parent: RbNode?, ghost t: Tree<RbNode>, ghost was: RbNode?)
    requires Linked(t, was) && Distinct(t) && child == Ptr(t)
    modifies if t.Branch? then {t.item.id} else {}
    ensures Linked(t, parent)
  {
    if child != null {
      IdsAllocated(t.left);
      IdsAllocated(t.right);
      assert Linked(t.left, child) && Linked(t.right, child);
      child.SetParent(parent);
      assert Linked(t.left, child) && Linked(t.right, child);
    }
  }

  /** The part of the rotation below the node's parent. */
  method TurnLinks(node: RbNode, pivot: RbNode, d: Dir, parent: RbNode?, ghost t: Tree<RbNode>)
    requires Linked(t, parent) && Distinct(t) && t.Branch? && t.Child(d.Flip()).Branch?
    requires node == t.item.id && pivot == t.Child(d.Flip()).item.id
    modifies Ids(t)
    ensures Linked(Rotate(t, d), parent)
  {
    ghost var a, b, c := t.Child(d), t.Child(d.Flip()).Child(d), t.Child(d.Flip()).Child(d.Flip());
    IdsAllocated(a);
    IdsAllocated(b);
    IdsAllocated(c);
    assert Linked(a, node) && Linked(b, pivot) && Linked(c, pivot);
    var inner := pivot.Child(d);
    node.SetChild(d.Flip(), inner);
    Adopt(inner, node, b, pivot);
    assert Linked(a, node) && Linked(c, pivot);
    RaisePivot(node, pivot, d, parent, t);
  }

  /** The second half: the pivot takes the node's place and the node becomes its child. */
  method RaisePivot(node: RbNode, pivot: RbNode, d: Dir, parent: RbNode?, ghost t: Tree<RbNode>)
    requires Distinct(t) && t.Branch? && t.Child(d.Flip()).Branch?
    requires var p := t.Child(d.Flip());
             && node == t.item.id && pivot == p.item.id
             && node.key == t.item.key && node.Color() == t.color && pivot.key == p.item.key && pivot.Color() == p.color
             && node.Child(d) == Ptr(t.Child(d)) && node.Child(d.Flip()) == Ptr(p.Child(d))
             && pivot.Child(d.Flip()) == Ptr(p.Child(d.Flip()))
             && Linked(t.Child(d), node) && Linked(p.Child(d), node) && Linked(p.Child(d.Flip()), pivot)
    modifies node, pivot
    ensures Linked(Rotate(t, d), parent)
  {
    ghost var a, b, c := t.Child(d), t.Child(d.Flip()).Child(d), t.Child(d.Flip()).Child(d.Flip());
    IdsAllocated(a);
    IdsAllocated(b);
    IdsAllocated(c);
    pivot.SetParent(parent);
    pivot.SetChild(d, node);
    node.SetParent(pivot);
    LinkedJoin(d, a, t.item, t.color, b, pivot);
    LinkedJoin(d, Rotate(t, d).Child(d), t.Child(d.Flip()).item, t.Child(d.Flip()).color, c, parent);
  }

  /** Stores `p` where the parent, or the root pointer, held the old subtree. */
  method SetHole(root: Root, parent: RbNode?, dir: Dir, p: RbNode?,
                 ghost c: Ctx<RbNode>, ghost hole: RbNode?, ghost t: Tree<RbNode>)
    requires CtxLinked(c, hole, null) && root.root == RootPtr(c, hole)
    requires parent == Above(c, null) && (c.In? ==> dir == c.frame.dir)
    requires Linked(t, parent) && p == Ptr(t) && Apart(c, t)
    modifies root`root, if c.Top? then {} else {c.frame.item.id}
    ensures Holds(root, c, t)
  {
    CtxIdsAllocated(c);
    IdsAllocated(t);
    if parent == null {
      root.root := p;
    } else {
      parent.SetChild(dir, p);
    }
  }

  /** Rotates the subtree at `node` in place, updating its parent's child or the root pointer. No other
      method counts a rotation. */
  method RbRotate(root: Root, node: RbNode, d: Dir, ghost c: Ctx<RbNode>, ghost t: Tree<RbNode>)
    requires Holds(root, c, t) && t.Branch? && node == t.item.id && t.Child(d.Flip()).Branch?
    modifies root`root, root`turns, CtxIds(c), Ids(t)
    ensures Holds(root, c, Rotate(t, d)) && Ids(Rotate(t, d)) == Ids(t)
    ensures root.turns == old(root.turns) + 1
  {
    CtxIdsAllocated(c);
    FocusParent(root, c, t);
    RotateKeepsIds(t, d);
    var pivot := node.Child(d.Flip());
    var parent := node.Parent();
    var side := if parent != null && parent.Child(d) == node then d else d.Flip();
    TurnLinks(node, pivot, d, parent, t);
    SetHole(root, parent, side, pivot, c, node, Rotate(t, d));
    root.turns := root.turns + 1;
  }

  /** Gives the node at the focus a colour. */
  method Paint(root: Root, node: RbNode, color: Color, ghost c: Ctx<RbNode>, ghost t: Tree<RbNode>)
    requires Holds(root, c, t) && t.Branch? && node == t.item.id
    modifies node
    ensures Holds(root, c, Recolor(t, color)) && Ids(Recolor(t, color)) == Ids(t)
  {
    CtxIdsAllocated(c);
    IdsAllocated(t.left);
    IdsAllocated(t.right);
    assert Linked(t.left, node) && Linked(t.right, node);
    node.SetColor(color);
    assert Linked(t.left, node) && Linked(t.right, node);
  }
}
