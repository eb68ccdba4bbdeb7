/** Iteration over the compact tree: `rb_iter` and `rb_iter_next`, which keep the ancestor stack. */
module CompactIter {
  import opened Trees
  import opened Zippers
  import opened IterSpec
  import opened CompactHeap

  /** The node and the stack describe the place: the node at its focus below exactly its ancestors,
      or no node and an empty stack. */
  ghost predicate Points(rp: Path, p: RbNode?, place: Place<RbNode>)
    reads rp, rp.path
  {
    match place
    case Nowhere => p == null && rp.Tracks(Top)
    case At(c, t) => p == Ptr(t) && rp.Tracks(c)
  }

  /** Descends from `p` in direction `d` as far as there are children, stacking every ancestor. */
  method Descend(rp: Path, p: RbNode, d: Dir, ghost t: Tree<RbNode>, ghost up: Ctx<RbNode>) returns (q: RbNode)
    requires Linked(t) && t.Branch? && p == t.item.id
    requires rp.Tracks(up) && Depth(up) + Height(t) <= rp.path.Length
    modifies rp, rp.path
    ensures Points(rp, q, At(SpineCtx(t, d, up), SpineEnd(t, d)))
  {
    q := p;
    ghost var c, s := up, t;
    IdsAllocated(t);
    ChildColor(s, d);
    var child := q.Child(d);
    while child != null
      invariant Linked(s) && s.Branch? && q == s.item.id && child == Ptr(s.Child(d)) && Ids(s) <= Ids(t)
      invariant rp.Tracks(c) && Depth(c) + Height(s) <= rp.path.Length
      invariant SpineCtx(s, d, c) == SpineCtx(t, d, up) && SpineEnd(s, d) == SpineEnd(t, d)
      decreases s
    {
      assert Height(s) >= 2;
      rp.Push(q, d, FrameOf(s, d), c);
      c, s := In(FrameOf(s, d), c), s.Child(d);
      q := child;
      ChildColor(s, d);
      child := q.Child(d);
    }
  }

  /** The first or last node of the tree: the end of the order in direction `d`. */
  method RbIter(root: Root, d: Dir, rp: Path, ghost t: Tree<RbNode>) returns (p: RbNode?)
    requires Holds(root, Top, t) && Height(t) < rp.path.Length
    modifies rp, rp.path
    ensures Points(rp, p, EndOf(t, d))
  {
    IdsAllocated(t);
    rp.Init();
    p := root.root;
    if p != null {
      p := Descend(rp, p, d, t, Top);
    }
  }

  /** The neighbour of the focus in direction `d`. */
  method RbIterNext(root: Root, node: RbNode?, d: Dir, rp: Path, ghost place: Place<RbNode>) returns (p: RbNode?)
    requires Points(rp, node, place)
    requires place.At? ==>
               && place.focus.Branch? && Holds(root, place.ctx, place.focus)
               && Height(Plug(place.ctx, place.focus)) < rp.path.Length
    modifies rp, rp.path
    ensures Points(rp, p, if place.At? then Step(place.ctx, place.focus, d) else Nowhere)
  {
    p := null;
    if node != null {
      ghost var c, t := place.ctx, place.focus;
      CtxIdsAllocated(c);
      IdsAllocated(t);
      ChildColor(t, d);
      PlugHeight(c, t);
      p := node.Child(d);
      if p != null {
        rp.Push(node, d, FrameOf(t, d), c);
        p := Descend(rp, p, d.Flip(), t.Child(d), In(FrameOf(t, d), c));
      } else {
        p := RbAscend(rp, d, c, t);
      }
    }
  }

  /** The loop of `rb_iter_next` that pops the stack up to the first ancestor on the far side. */
  method RbAscend(rp: Path, d: Dir, ghost c0: Ctx<RbNode>, ghost t0: Tree<RbNode>) returns (p: RbNode?)
    requires rp.Tracks(c0)
    modifies rp
    ensures Points(rp, p, Ascend(c0, t0, d))
  {
    p := null;
    ghost var c, t := c0, t0;
    rp.TopEntry(c);
    while rp.path[rp.cur].parent != null
      invariant rp.Tracks(c) && Ascend(c, t, d) == Ascend(c0, t0, d) && p == null
      invariant if c.Top? then rp.path[rp.cur].parent == null
                else rp.path[rp.cur] == Entry(c.frame.item.id, c.frame.dir)
      decreases c
    {
      if rp.path[rp.cur].dir == d.Flip() {
        p := rp.path[rp.cur].parent;
        rp.Pop(c);
        break;
      }
      rp.Pop(c);
      c, t := c.up, Fill(c.frame, t);
      rp.TopEntry(c);
    }
  }
}
