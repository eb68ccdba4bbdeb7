/** Iteration over the parent-pointer tree: `rb_iter` and `rb_iter_next`. */
module ParentIter {
  import opened Trees
  import opened Zippers
  import opened IterSpec
  import opened ParentHeap

  /** The node at the place, or null. */
  function NodeAt(place: Place<RbNode>): RbNode? {
    if place.At? then Ptr(place.focus) else null
  }

  /** Descends from `p` in direction `d` as far as there are children. */
  method Descend(p: RbNode, d: Dir, ghost t: Tree<RbNode>, ghost parent: RbNode?) returns (q: RbNode)
    requires Linked(t, parent) && t.Branch? && p == t.item.id
    ensures q == SpineEnd(t, d).item.id
  {
    q := p;
    ghost var s, above := t, parent;
    ChildColor(s, d, above);
    var child := q.Child(d);
    while child != null
      invariant Linked(s, above) && s.Branch? && q == s.item.id && child == Ptr(s.Child(d))
      invariant SpineEnd(s, d) == SpineEnd(t, d)
      decreases s
    {
      s, above := s.Child(d), q;
      q := child;
      ChildColor(s, d, above);
      child := q.Child(d);
    }
  }

  /** The first or last node of the tree: the end of the order in direction `d`. */
  method RbIter(root: Root, d: Dir, ghost t: Tree<RbNode>) returns (p: RbNode?)
    requires Holds(root, Top, t)
    ensures p == NodeAt(EndOf(t, d))
  {
    p := root.root;
    if p != null {
      p := Descend(p, d, t, null);
    }
  }

  /** The neighbour of the focus in direction `d`. */
  method RbIterNext(root: Root, node: RbNode?, d: Dir, ghost place: Place<RbNode>) returns (p: RbNode?)
    requires node == NodeAt(place)
    requires place.At? ==> place.focus.Branch? && Holds(root, place.ctx, place.focus)
    ensures p == NodeAt(if place.At? then Step(place.ctx, place.focus, d) else Nowhere)
  {
    p := null;
    if node != null {
      ghost var t := place.focus;
      ChildColor(t, d, Above(place.ctx, null));
      p := node.Child(d);
      if p != null {
        p := Descend(p, d.Flip(), t.Child(d), node);
      } else {
        p := Climb(root, node, d, place.ctx, t);
      }
    }
  }

  /** The loop of `rb_iter_next` that climbs to the first ancestor on the far side. */
  method Climb(root: Root, node0: RbNode, d: Dir, ghost c0: Ctx<RbNode>, ghost t0: Tree<RbNode>) returns (p: RbNode?)
    requires Holds(root, c0, t0) && t0.Branch? && node0 == t0.item.id
    ensures p == NodeAt(Ascend(c0, t0, d))
  {
    var node := node0;
    ghost var c, t := c0, t0;
    FocusParent(root, c, t);
    p := node.Parent();
    while p != null && p.Child(d) == node
      invariant Holds(root, c, t) && t.Branch? && node == t.item.id && p == Above(c, null)
      invariant Ascend(c, t, d) == Ascend(c0, t0, d)
      decreases c
    {
      FocusParent(root, c, t);
      HoldsFill(root, c, t);
      c, t := c.up, Fill(c.frame, t);
      node := p;
      FocusParent(root, c, t);
      p := node.Parent();
    }
    FocusParent(root, c, t);
  }
}
