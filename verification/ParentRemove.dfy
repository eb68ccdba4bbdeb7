/** Removal from the parent-pointer tree: `rb_remove_color` and `rb_remove`. */
module ParentRemove {
  import opened Trees
  import opened Zippers
  import opened PackedWord
  import opened IterSpec
  import opened RemoveSpec
  import opened ParentHeap
  import opened ParentIter

  // ---------- colour repair ----------

  /** Case 1 of the loop: the red sibling comes up in the parent's place. */
  method Turn(root: Root, parent: RbNode, sibling: RbNode, dir: Dir, ghost c: Ctx<RbNode>, ghost t: Tree<RbNode>)
    requires Holds(root, c, t) && c.In? && IsRed(c.frame.sibling)
    requires parent == c.frame.item.id && sibling == c.frame.sibling.item.id && dir == c.frame.dir
    modifies root, CtxIds(c), Ids(t)
    ensures Holds(root, RemoveTurn(c.frame, c.up), t) && CtxIds(RemoveTurn(c.frame, c.up)) == CtxIds(c)
    ensures root.turns == old(root.turns) + 1
  {
    ghost var f, up := c.frame, c.up;
    ghost var c', s' := RemoveTurn(f, up), Recolor(f.sibling, Black);
    ghost var g := f.(color := Red, sibling := s');
    TurnKeepsIds(f, up);
    HoldsBeside(root, c, t);
    Paint(root, sibling, Black, Beside(c, t), f.sibling);
    HoldsBeside(root, In(f.(sibling := s'), up), t);
    HoldsFill(root, In(f.(sibling := s'), up), t);
    Paint(root, parent, Red, up, Fill(f.(sibling := s'), t));
    HoldsFill(root, In(g, up), t);
    RbRotate(root, parent, dir, up, Fill(g, t));
    HoldsFill(root, c'.up, Fill(c'.frame, t));
    HoldsFill(root, c', t);
  }

  /** Case 2 of the loop: the sibling becomes red and the parent becomes the focus. */
  method Lift(root: Root, sibling: RbNode, ghost c: Ctx<RbNode>, ghost t: Tree<RbNode>)
    requires Holds(root, c, t) && c.In? && c.frame.sibling.Branch? && sibling == c.frame.sibling.item.id
    modifies sibling
    ensures Holds(root, c.up, RemoveLift(c.frame, t))
    ensures CtxIds(c.up) + Ids(RemoveLift(c.frame, t)) == CtxIds(c) + Ids(t)
  {
    IdsAllocated(t);
    CtxIdsAllocated(c);
    FillApart(c.frame, c.up, t);
    LiftKeepsOrder(c.frame, t);
    sibling.SetColor(Red);
  }

  /** The zipper whose focus is the sibling of the focus. */
  function Beside(c: Ctx<RbNode>, t: Tree<RbNode>): Ctx<RbNode>
    requires c.In?
  {
    In(Frame(c.frame.item, c.frame.color, c.frame.dir.Flip(), t), c.up)
  }

  lemma HoldsBeside(root: Root, c: Ctx<RbNode>, t: Tree<RbNode>)
    requires c.In?
    ensures Holds(root, c, t) <==> Holds(root, Beside(c, t), c.frame.sibling)
    ensures CtxIds(c) + Ids(t) == CtxIds(Beside(c, t)) + Ids(c.frame.sibling)
  {
    assert Fill(c.frame, t) == Fill(Beside(c, t).frame, c.frame.sibling);
    HoldsFill(root, c, t);
    HoldsFill(root, Beside(c, t), c.frame.sibling);
  }

  /** Case 3: the red near nephew comes up in the sibling's place. */
  method StraightenSibling(root: Root, sibling: RbNode, nephew: RbNode, dir: Dir,
                           ghost c: Ctx<RbNode>, ghost t: Tree<RbNode>)
    requires Holds(root, c, t) && c.In? && c.frame.sibling.Branch? && dir == c.frame.dir
    requires IsBlack(c.frame.sibling.Child(dir.Flip())) && IsRed(c.frame.sibling.Child(dir))
    requires sibling == c.frame.sibling.item.id && nephew == c.frame.sibling.Child(dir).item.id
    modifies root, CtxIds(c), Ids(t)
    ensures var c' := c.(frame := c.frame.(sibling := Straighten(dir, c.frame.sibling)));
            Holds(root, c', t) && CtxIds(c') + Ids(t) == CtxIds(c) + Ids(t)
    ensures root.turns == old(root.turns) + 1
  {
    ghost var s, beside := c.frame.sibling, Beside(c, t);
    ghost var inner := In(FrameOf(s, dir), beside);
    HoldsBeside(root, c, t);
    HoldsFill(root, inner, s.Child(dir));
    Paint(root, nephew, Black, inner, s.Child(dir));
    ghost var s1 := Fill(inner.frame, Recolor(s.Child(dir), Black));
    HoldsFill(root, inner, Recolor(s.Child(dir), Black));
    Paint(root, sibling, Red, beside, s1);
    RbRotate(root, sibling, dir.Flip(), beside, Recolor(s1, Red));
    ghost var c' := c.(frame := c.frame.(sibling := Straighten(dir, s)));
    HoldsBeside(root, c', t);
  }

  /** Case 4: the sibling, whose far child is red, comes up in the parent's place. */
  method SettleSibling(root: Root, parent: RbNode, sibling: RbNode, nephew: RbNode, dir: Dir,
                       ghost c: Ctx<RbNode>, ghost t: Tree<RbNode>)
    requires Holds(root, c, t) && c.In? && c.frame.sibling.Branch? && dir == c.frame.dir
    requires c.frame.sibling.Child(dir.Flip()).Branch? && parent == c.frame.item.id
    requires sibling == c.frame.sibling.item.id && nephew == c.frame.sibling.Child(dir.Flip()).item.id
    modifies root, CtxIds(c), Ids(t)
    ensures var r := Settle(c.frame, c.frame.sibling, t);
            Holds(root, c.up, r) && CtxIds(c.up) + Ids(r) == CtxIds(c) + Ids(t)
    ensures root.turns == old(root.turns) + 1
  {
    ghost var f, s, beside := c.frame, c.frame.sibling, Beside(c, t);
    HoldsBeside(root, c, t);
    Paint(root, sibling, parent.Color(), beside, s);
    ghost var s1 := Recolor(s, f.color);
    ghost var c1 := c.(frame := f.(sibling := s1));
    HoldsBeside(root, c1, t);
    HoldsFill(root, c1, t);
    Paint(root, parent, Black, c.up, Fill(c1.frame, t));
    ghost var c2 := c.(frame := f.(color := Black, sibling := s1));
    HoldsFill(root, c2, t);
    HoldsBeside(root, c2, t);
    ghost var inner := In(FrameOf(s1, dir.Flip()), Beside(c2, t));
    HoldsFill(root, inner, s1.Child(dir.Flip()));
    Paint(root, nephew, Black, inner, s1.Child(dir.Flip()));
    ghost var s3 := Fill(inner.frame, Recolor(s1.Child(dir.Flip()), Black));
    HoldsFill(root, inner, Recolor(s1.Child(dir.Flip()), Black));
    ghost var c3 := c2.(frame := c2.frame.(sibling := s3));
    HoldsBeside(root, c3, t);
    HoldsFill(root, c3, t);
    RbRotate(root, parent, dir, c.up, Fill(c3.frame, t));
  }

  /** Cases 3 and 4 of the loop. */
  method Finish(root: Root, parent: RbNode, sibling0: RbNode, dir: Dir, ghost c: Ctx<RbNode>, ghost t: Tree<RbNode>)
    requires Holds(root, c, t) && c.In? && c.frame.sibling.Branch? && !BlackNephews(c.frame)
    requires parent == c.frame.item.id && sibling0 == c.frame.sibling.item.id && dir == c.frame.dir
    modifies root, CtxIds(c), Ids(t)
    ensures Holds(root, Top, Plug(c.up, RemoveFinish(c.frame, t)))
    ensures Ids(Plug(c.up, RemoveFinish(c.frame, t))) == CtxIds(c) + Ids(t)
    ensures root.turns == old(root.turns) + FinishTurns(c.frame)
  {
    ghost var f, c' := c.frame, c;
    CtxIdsAllocated(c);
    var sibling := sibling0;
    HoldsBeside(root, c, t);
    ChildColor(f.sibling, dir, parent);
    ChildColor(f.sibling, dir.Flip(), parent);
    if sibling.Child(dir.Flip()) == null || sibling.Child(dir.Flip()).Color() == Black {
      StraightenSibling(root, sibling, sibling.Child(dir), dir, c, t);
      c' := c.(frame := f.(sibling := Straighten(dir, f.sibling)));
      sibling := parent.Child(dir.Flip());
    }
    HoldsBeside(root, c', t);
    ChildColor(c'.frame.sibling, dir.Flip(), parent);
    SettleSibling(root, parent, sibling, sibling.Child(dir.Flip()), dir, c', t);
    HoldsPlug(root, c.up, RemoveFinish(f, t));
  }

  /** The test between case 2 and cases 3 and 4: has the sibling no red child? */
  method NoRedNephew(sibling: RbNode, dir: Dir, ghost s: Tree<RbNode>, ghost parent: RbNode) returns (none: bool)
    requires Linked(s, parent) && s.Branch? && sibling == s.item.id
    ensures none <==> IsBlack(s.left) && IsBlack(s.right)
  {
    ChildColor(s, dir, parent);
    ChildColor(s, dir.Flip(), parent);
    none := (sibling.Child(dir.Flip()) == null || sibling.Child(dir.Flip()).Color() == Black)
         && (sibling.Child(dir) == null || sibling.Child(dir).Color() == Black);
  }

  /** The side of the focus, which may be empty: its sibling is not, so comparing pointers tells. */
  lemma FocusSide(root: Root, c: Ctx<RbNode>, t: Tree<RbNode>)
    requires Holds(root, c, t) && c.In? && c.frame.sibling.Branch?
    ensures c.frame.item.id.left == Ptr(t) <==> c.frame.dir == Left
    ensures c.frame.item.id.Child(c.frame.dir.Flip()) == Ptr(c.frame.sibling)
    ensures c.frame.sibling.item.id.Color() == c.frame.sibling.color
  {
    assert c.frame.sibling.item.id in CtxIds(c);
    assert Linked(c.frame.sibling, c.frame.item.id);
  }

  /** One round of the loop for a black focus below the root. The last round ends at the root. */
  method Round(root: Root, parent0: RbNode, node0: RbNode?, ghost c: Ctx<RbNode>, ghost t: Tree<RbNode>)
    returns (done: bool, parent: RbNode?, node: RbNode?, ghost c': Ctx<RbNode>, ghost t': Tree<RbNode>)
    requires Holds(root, c, t) && c.In? && IsBlack(t) && Short(c, t)
    requires parent0 == c.frame.item.id && node0 == Ptr(t)
    modifies root, CtxIds(c), Ids(t)
    ensures Holds(root, c', t') && CtxIds(c') + Ids(t') == CtxIds(c) + Ids(t) && node == Ptr(t')
    ensures !done ==> && parent == Above(c', null) && Deficit(c', t') && RemoveFix(c', t') == RemoveFix(c, t)
                      && (IsBlack(t') ==> c' == c.up)
                      && root.turns + RemoveTurns(c', t') == old(root.turns) + RemoveTurns(c, t)
    ensures done ==> && c' == Top && t' == RemoveFix(c, t) && Legal(t')
                     && root.turns == old(root.turns) + RemoveTurns(c, t)
  {
    CtxIdsAllocated(c);
    IdsAllocated(t);
    RoundKeepsDeficit(c, t);
    FocusSide(root, c, t);
    ghost var turned := Turned(c);
    var dir := if parent0.left == node0 then Left else Right;
    var sibling := parent0.Child(dir.Flip());
    if sibling.Color() == Red {
      Turn(root, parent0, sibling, dir, c, t);
      sibling := parent0.Child(dir.Flip());
    }
    FocusSide(root, turned, t);
    done, parent, node, c', t' := ChooseCase(root, parent0, sibling, dir, turned, t);
  }

  /** The second half of a round: case 2, or cases 3 and 4. */
  method ChooseCase(root: Root, parent0: RbNode, sibling: RbNode, dir: Dir, ghost c: Ctx<RbNode>, ghost t: Tree<RbNode>)
    returns (done: bool, parent: RbNode?, node: RbNode?, ghost c': Ctx<RbNode>, ghost t': Tree<RbNode>)
    requires Holds(root, c, t) && c.In? && c.frame.sibling.Branch?
    requires parent0 == c.frame.item.id && sibling == c.frame.sibling.item.id && dir == c.frame.dir
    modifies root, CtxIds(c), Ids(t)
    ensures Holds(root, c', t') && CtxIds(c') + Ids(t') == CtxIds(c) + Ids(t) && node == Ptr(t')
    ensures done <==> !BlackNephews(c.frame)
    ensures !done ==> parent == Above(c', null) && c' == c.up && t' == RemoveLift(c.frame, t)
    ensures done ==> c' == Top && t' == Plug(c.up, RemoveFinish(c.frame, t))
    ensures root.turns == old(root.turns) + if done then FinishTurns(c.frame) else 0
  {
    CtxIdsAllocated(c);
    IdsAllocated(t);
    HoldsBeside(root, c, t);
    var lift := NoRedNephew(sibling, dir, c.frame.sibling, parent0);
    done := !lift;
    if lift {
      Lift(root, sibling, c, t);
      node, c', t' := parent0, c.up, RemoveLift(c.frame, t);
      FocusParent(root, c', t');
      parent := node.Parent();
    } else {
      Finish(root, parent0, sibling, dir, c, t);
      c', t' := Top, Plug(c.up, RemoveFinish(c.frame, t));
      parent, node := parent0, root.root;
    }
  }

  method BlackenFocus(root: Root, node: RbNode?, ghost c: Ctx<RbNode>, ghost t: Tree<RbNode>)
    requires Holds(root, c, t) && node == Ptr(t)
    modifies Ids(t)
    ensures Holds(root, Top, Plug(c, Recolor(t, Black)))
    ensures Ids(Plug(c, Recolor(t, Black))) == CtxIds(c) + Ids(t)
  {
    if node != null {
      Paint(root, node, Black, c, t);
    }
    HoldsPlug(root, c, Recolor(t, Black));
  }

  /** The loop of the repair. It ends at a focus that only needs to become black. */
  method RepairLoop(root: Root, parent0: RbNode?, node0: RbNode?, ghost c0: Ctx<RbNode>, ghost t0: Tree<RbNode>)
    returns (node: RbNode?, ghost c: Ctx<RbNode>, ghost t: Tree<RbNode>)
    requires Holds(root, c0, t0) && parent0 == Above(c0, null) && node0 == Ptr(t0) && Short(c0, t0)
    modifies root, CtxIds(c0), Ids(t0)
    ensures Holds(root, c, t) && CtxIds(c) + Ids(t) == CtxIds(c0) + Ids(t0) && node == Ptr(t)
    ensures Plug(c, Recolor(t, Black)) == RemoveFix(c0, t0)
    ensures root.turns == old(root.turns) + RemoveTurns(c0, t0)
  {
    var parent := parent0;
    node, c, t := node0, c0, t0;
    IdsAllocated(t0);
    CtxIdsAllocated(c0);
    while true
      invariant Holds(root, c, t) && CtxIds(c) + Ids(t) == CtxIds(c0) + Ids(t0) && node == Ptr(t)
      invariant parent == Above(c, null) && Deficit(c, t) && RemoveFix(c, t) == RemoveFix(c0, t0)
      invariant root.turns + RemoveTurns(c, t) == old(root.turns) + RemoveTurns(c0, t0)
      decreases if IsRed(t) then 0 else Depth(c) + 1
    {
      RootIsAbove(c, node);
      if !((node == null || node.Color() == Black) && node != root.root) {
        break;
      }
      var done;
      done, parent, node, c, t := Round(root, parent, node, c, t);
      if done {
        break;
      }
    }
  }

  /** Colour repair around the focus `t0`, which is one black level short, with as many rotations as the
      specification says, hence at most three. */
  method RbRemoveColor(root: Root, parent0: RbNode?, node0: RbNode?, ghost c0: Ctx<RbNode>, ghost t0: Tree<RbNode>)
    requires Holds(root, c0, t0) && parent0 == Above(c0, null) && node0 == Ptr(t0) && Short(c0, t0)
    modifies root, CtxIds(c0), Ids(t0)
    ensures Holds(root, Top, RemoveFix(c0, t0))
    ensures Ids(RemoveFix(c0, t0)) == CtxIds(c0) + Ids(t0)
    ensures root.turns == old(root.turns) + RemoveTurns(c0, t0) && RemoveTurns(c0, t0) <= 3
  {
    var node;
    ghost var c, t;
    node, c, t := RepairLoop(root, parent0, node0, c0, t0);
    RemoveTurnsAtMostThree(c0, t0);
    BlackenFocus(root, node, c, t);
  }

  // ---------- taking a node out ----------

  /** A deep successor `m` leaves its place below `inner` to its right child. */
  method Unhook(succ: RbNode, parent: RbNode, ghost inner: Ctx<RbNode>, ghost m: Tree<RbNode>, ghost top: RbNode)
    requires Linked(Plug(inner, m), top) && Distinct(Plug(inner, m)) && inner.In? && m.Branch? && m.left.Leaf?
    requires succ == m.item.id && parent == inner.frame.item.id && inner.frame.dir == Left
    modifies parent, Ids(m.right)
    ensures Linked(Plug(inner, m.right), top) && Ptr(Plug(inner, m.right)) == Ptr(Plug(inner, m))
    ensures parent != succ
  {
    IdsAllocated(m);
    CtxIdsAllocated(inner);
    LinkedPlug(inner, m, top);
    PlugIds(inner, m);
    assert Linked(m.right, succ);
    var child := succ.right;
    var side := if parent.left == succ then Left else Right;
    parent.SetChild(side, child);
    Adopt(child, parent, m.right, succ);
    LinkedPlug(inner, m.right, top);
  }

  /** The successor takes over the node's left child, its parent and its colour; its right child is
      in place already. */
  method Inherit(node: RbNode, succ: RbNode, ghost t: Tree<RbNode>, ghost rest: Tree<RbNode>, ghost above: RbNode?)
    requires t.Branch? && Linked(t.left, node) && Distinct(t.left) && Linked(rest, succ) && node == t.item.id
    requires node.left == Ptr(t.left) && node.parentColor == Word(above, t.color)
    requires succ !in Ids(t.left) && succ !in Ids(rest) && succ.right == Ptr(rest)
    requires node !in Ids(t.left) && node !in Ids(rest) && Ids(t.left) !! Ids(rest) && node != succ
    modifies succ, Ids(t.left)
    ensures Linked(Branch(t.left, Item(succ, succ.key), t.color, rest), above)
  {
    IdsAllocated(t.left);
    IdsAllocated(rest);
    succ.left := node.left;
    Adopt(node.left, succ, t.left, node);
    succ.parentColor := node.parentColor;
  }

  /** What the successor's own words hold. */
  lemma SuccessorLinks(t: Tree<RbNode>, inner: Ctx<RbNode>, node: RbNode)
    requires t.Branch? && t.right.Branch? && inner == SpineCtx(t.right, Left, Top) && Linked(t.right, node)
    ensures var m := SpineEnd(t.right, Left);
            && Linked(Plug(inner, m), node) && Linked(m.right, m.item.id)
            && m.item.id.parentColor == Word(Above(inner, node), m.color) && m.item.id.right == Ptr(m.right)
            && m.item.id.key == m.item.key
  {
    var m := SpineEnd(t.right, Left);
    SpineWalk(t.right, Left, Top);
    LinkedPlug(inner, m, node);
    assert Linked(m, Above(inner, node));
  }

  /** The successor `succ` leaves its place below `inner` and takes over the links and the colour of
      `node`. Returns the node below which repair would start. */
  method TakePlace(node: RbNode, succ: RbNode, ghost t: Tree<RbNode>, ghost inner: Ctx<RbNode>, ghost above: RbNode?)
    returns (parent: RbNode)
    requires Linked(t, above) && Distinct(t) && t.Branch? && t.left.Branch? && t.right.Branch?
    requires inner == SpineCtx(t.right, Left, Top) && node == t.item.id && succ == Spliced(t).item.id
    modifies Ids(t)
    ensures Linked(Unlinked(t), above) && Ptr(Unlinked(t)) == succ
    ensures parent == Above(inner, succ)
    ensures unchanged(node)
  {
    ghost var m := Spliced(t);
    ghost var rest := Plug(inner, m.right);
    IdsAllocated(t.left);
    IdsAllocated(rest);
    assert Linked(t.right, node) && Linked(t.left, node);
    SuccessorIds(t, inner);
    SuccessorLinks(t, inner, node);
    parent := succ.Parent();
    if parent != node {
      Unhook(succ, parent, inner, m, node);
      succ.right := node.right;
      Adopt(node.right, succ, rest, node);
    } else {
      parent := succ;
    }
    Inherit(node, succ, t, rest, above);
  }

  /** Two children: the successor is put in the node's place. */
  method UnlinkSuccessor(node: RbNode, ghost t: Tree<RbNode>, ghost above: RbNode?)
    returns (succ: RbNode, replacement: RbNode?, deleted: Color, parent: RbNode)
    requires Linked(t, above) && Distinct(t) && t.Branch? && t.left.Branch? && t.right.Branch? && node == t.item.id
    modifies Ids(t)
    ensures Linked(Unlinked(t), above) && succ == Ptr(Unlinked(t))
    ensures replacement == Ptr(Remainder(Spliced(t))) && deleted == Spliced(t).color
    ensures parent == Above(SpineCtx(t.right, Left, Top), succ)
    ensures unchanged(node)
  {
    ghost var inner := SpineCtx(t.right, Left, Top);
    IdsAllocated(t);
    assert Linked(t.right, node);
    succ := Descend(node.right, Left, t.right, node);
    SuccessorLinks(t, inner, node);
    deleted := succ.Color();
    replacement := succ.right;
    parent := TakePlace(node, succ, t, inner, above);
  }

  /** The three ways to take a node out of its place. */
  method Unlink(node: RbNode, above: RbNode?, ghost c: Ctx<RbNode>, ghost t: Tree<RbNode>)
    returns (transplanter: RbNode?, replacement: RbNode?, deleted: Color, parent: RbNode?)
    requires Linked(t, above) && Distinct(t) && t.Branch? && node == t.item.id && above == Above(c, null)
    modifies Ids(t)
    ensures Linked(Unlinked(t), above) && transplanter == Ptr(Unlinked(t))
    ensures replacement == Ptr(Remainder(Spliced(t))) && deleted == Spliced(t).color
    ensures parent == Above(SplicedCtx(c, t), null)
    ensures unchanged(node)
  {
    deleted := node.Color();
    if node.left == null {
      transplanter := node.right;
      replacement, parent := transplanter, above;
      Adopt(transplanter, above, t.right, node);
    } else if node.right == null {
      transplanter := node.left;
      replacement, parent := transplanter, above;
      Adopt(transplanter, above, t.left, node);
    } else {
      SpineAppend(t.right, Left, Top, In(FrameOf(t, Right).(item := Spliced(t).item), c));
      transplanter, replacement, deleted, parent := UnlinkSuccessor(node, t, above);
    }
  }

  /** Removes the node at the focus. */
  method RbRemove(root: Root, node: RbNode, ghost c: Ctx<RbNode>, ghost t: Tree<RbNode>)
    requires Holds(root, c, t) && t.Branch? && node == t.item.id && Legal(Plug(c, t))
    modifies root, CtxIds(c), Ids(t)
    ensures Holds(root, Top, RemoveAt(c, t))
    ensures Ids(RemoveAt(c, t)) == CtxIds(c) + Ids(t) - {node}
    ensures root.turns == old(root.turns) + RemoveAtTurns(c, t) && RemoveAtTurns(c, t) <= 3
    ensures unchanged(node)
  {
    ghost var c', rest := SplicedCtx(c, t), Remainder(Spliced(t));
    CtxIdsAllocated(c);
    UnlinkedFacts(c, t);
    FocusParent(root, c, t);
    var above := node.Parent();
    var side := if above != null && above.left == node then Left else Right;
    var transplanter, replacement, deleted, parent := Unlink(node, above, c, t);
    SetHole(root, above, side, transplanter, c, node, Unlinked(t));
    HoldsMoved(root, c, Unlinked(t), c', rest);
    if deleted == Black {
      RbRemoveColor(root, parent, replacement, c', rest);
    } else {
      HoldsPlug(root, c', rest);
    }
  }
}
