/** Removal from the compact tree: `rb_remove_color` and `rb_remove`. */
module CompactRemove {
  import opened Trees
  import opened Zippers
  import opened PackedWord
  import opened IterSpec
  import opened RemoveSpec
  import opened PathCapacity
  import opened CompactHeap
  import opened CompactIter

  // ---------- colour repair ----------

  /** Case 1 on the subtree of the parent: the red sibling comes up in the parent's place. */
  method RaiseSibling(ghost root: Root, parent: RbNode, sibling: RbNode, dir: Dir,
                      ghost f: Frame<RbNode>, ghost up: Ctx<RbNode>, ghost t: Tree<RbNode>)
    returns (top: RbNode)
    requires Linked(Fill(f, t)) && Distinct(Fill(f, t)) && f.sibling.Branch?
    requires parent == f.item.id && sibling == f.sibling.item.id && dir == f.dir
    modifies root`turns, parent, sibling
    ensures root.turns == old(root.turns) + 1
    ensures var c := RemoveTurn(f, up);
            var r := Fill(c.up.frame, Fill(c.frame, t));
            Linked(r) && top == Ptr(r) && Ids(r) == Ids(Fill(f, t)) && Distinct(r)
  {
    ghost var g := f.(color := Red, sibling := Recolor(f.sibling, Black));
    IdsAllocated(t);
    IdsAllocated(f.sibling);
    FillDistinct(f, t);
    RecolorKeepsOrder(f.sibling, Black);
    FillDistinct(g, t);
    sibling.SetColor(Black);
    parent.SetColor(Red);
    RotateKeepsIds(Fill(g, t), dir);
    top := RbRotate(root, parent, dir, Fill(g, t));
  }

  /** Case 1, the heap part: the rotated subtree is hung in below the entry `e`. */
  method TurnHeap(root: Root, e: Entry<RbNode?>, parent: RbNode, sibling: RbNode, dir: Dir,
                  ghost c: Ctx<RbNode>, ghost t: Tree<RbNode>)
    returns (top: RbNode)
    requires Holds(root, c, t) && c.In? && IsRed(c.frame.sibling)
    requires parent == c.frame.item.id && sibling == c.frame.sibling.item.id && dir == c.frame.dir
    requires if c.up.Top? then e.parent == null else e == Entry(c.up.frame.item.id, c.up.frame.dir)
    modifies root, CtxIds(c)
    ensures Holds(root, RemoveTurn(c.frame, c.up), t) && top == c.frame.sibling.item.id
    ensures root.turns == old(root.turns) + 1
  {
    ghost var f, up := c.frame, c.up;
    ghost var c' := RemoveTurn(f, up);
    CtxIdsAllocated(up);
    HoldsFill(root, c, t);
    top := RaiseSibling(root, parent, sibling, dir, f, up, t);
    Hang(root, e, top, up, parent, Fill(c'.up.frame, Fill(c'.frame, t)));
    HoldsFill(root, c'.up, Fill(c'.frame, t));
    HoldsFill(root, c', t);
  }

  /** Case 1 of the loop: the rotation, and an extra entry on the stack. */
  method Turn(root: Root, rp: Path, parent: RbNode, sibling: RbNode, dir: Dir,
              ghost c: Ctx<RbNode>, ghost t: Tree<RbNode>)
    requires Holds(root, c, t) && rp.Tracks(c) && c.In? && IsRed(c.frame.sibling) && rp.cur + 1 < rp.path.Length
    requires parent == c.frame.item.id && sibling == c.frame.sibling.item.id && dir == c.frame.dir
    modifies root, rp, rp.path, CtxIds(c)
    ensures Holds(root, RemoveTurn(c.frame, c.up), t) && rp.Tracks(RemoveTurn(c.frame, c.up))
    ensures CtxIds(RemoveTurn(c.frame, c.up)) == CtxIds(c) && root.turns == old(root.turns) + 1
  {
    ghost var c' := RemoveTurn(c.frame, c.up);
    IdsAllocated(t);
    CtxIdsAllocated(c);
    TurnKeepsIds(c.frame, c.up);
    rp.NextEntry(c);
    var top := TurnHeap(root, rp.path[rp.cur - 1], parent, sibling, dir, c, t);
    rp.InsertBelowTop(top, dir, c, c');
  }

  /** Case 2 of the loop: the sibling becomes red and the parent becomes the focus. */
  method Lift(root: Root, sibling: RbNode, ghost c: Ctx<RbNode>, ghost t: Tree<RbNode>)
    requires Holds(root, c, t) && c.In? && c.frame.sibling.Branch? && sibling == c.frame.sibling.item.id
    modifies sibling
    ensures Holds(root, c.up, RemoveLift(c.frame, t))
    ensures CtxIds(c.up) + Ids(RemoveLift(c.frame, t)) == CtxIds(c) + Ids(t)
  {
    IdsAllocated(t);
    CtxIdsAllocated(c);
    FillApart(c.frame, c.up, t);
    LiftKeepsOrder(c.frame, t);
    sibling.SetColor(Red);
  }

  /** Case 3 on the subtree of the sibling: the red near nephew comes up in the sibling's place. */
  method RaiseNephew(ghost root: Root, sibling: RbNode, nephew: RbNode, dir: Dir, ghost s: Tree<RbNode>)
    returns (top: RbNode)
    requires Linked(s) && Distinct(s) && s.Branch? && IsBlack(s.Child(dir.Flip())) && IsRed(s.Child(dir))
    requires sibling == s.item.id && nephew == s.Child(dir).item.id
    modifies root`turns, sibling, nephew
    ensures root.turns == old(root.turns) + 1
    ensures Linked(Straighten(dir, s)) && top == Ptr(Straighten(dir, s))
  {
    ghost var near, far := Recolor(s.Child(dir), Black), s.Child(dir.Flip());
    ghost var g := Frame(s.item, Red, dir, far);
    assert s == Fill(g.(color := s.color), s.Child(dir));
    IdsAllocated(s.Child(dir));
    IdsAllocated(far);
    FillDistinct(g.(color := s.color), s.Child(dir));
    RecolorKeepsOrder(s.Child(dir), Black);
    FillDistinct(g, near);
    assert Linked(s.Child(dir)) && Linked(far);
    nephew.SetColor(Black);
    assert Linked(near) && Linked(far);
    sibling.SetColor(Red);
    top := RbRotate(root, sibling, dir.Flip(), Fill(g, near));
  }

  /** Case 3 of the loop. */
  method StraightenSibling(ghost root: Root, parent: RbNode, sibling: RbNode, nephew: RbNode, dir: Dir,
                           ghost f: Frame<RbNode>, ghost t: Tree<RbNode>)
    returns (top: RbNode)
    requires Linked(Fill(f, t)) && Distinct(Fill(f, t)) && f.sibling.Branch? && !BlackNephews(f)
    requires IsBlack(f.sibling.Child(dir.Flip()))
    requires parent == f.item.id && sibling == f.sibling.item.id && dir == f.dir
    requires nephew == f.sibling.Child(dir).item.id
    modifies root`turns, parent, sibling, nephew
    ensures root.turns == old(root.turns) + 1
    ensures Linked(Fill(f.(sibling := Straighten(dir, f.sibling)), t))
    ensures top == Ptr(Straighten(dir, f.sibling))
  {
    IdsAllocated(t);
    IdsAllocated(f.sibling);
    FillDistinct(f, t);
    StraightenKeepsOrder(dir, f.sibling);
    top := RaiseNephew(root, sibling, nephew, dir, f.sibling);
    parent.SetChild(dir.Flip(), top);
  }

  /** Case 4, first half: the sibling takes the parent's colour and the far nephew becomes black. */
  method PaintSibling(sibling: RbNode, nephew: RbNode, color: Color, dir: Dir, ghost s: Tree<RbNode>)
    requires Linked(s) && Distinct(s) && s.Branch? && s.Child(dir.Flip()).Branch?
    requires sibling == s.item.id && nephew == s.Child(dir.Flip()).item.id
    modifies sibling, nephew
    ensures Linked(Join(dir, s.Child(dir), s.item, color, Recolor(s.Child(dir.Flip()), Black)))
  {
    IdsAllocated(s.Child(dir));
    IdsAllocated(s.Child(dir.Flip()));
    assert Linked(s.Child(dir)) && Linked(s.Child(dir.Flip()));
    nephew.SetColor(Black);
    assert Linked(Recolor(s.Child(dir.Flip()), Black));
    sibling.SetColor(color);
  }

  /** Case 4: the sibling, whose far child is red, comes up in the parent's place. */
  method SettleSibling(ghost root: Root, parent: RbNode, sibling: RbNode, nephew: RbNode, dir: Dir,
                       ghost f: Frame<RbNode>, ghost s: Tree<RbNode>, ghost t: Tree<RbNode>)
    returns (top: RbNode)
    requires Linked(Fill(f.(sibling := s), t)) && Distinct(Fill(f.(sibling := s), t))
    requires s.Branch? && s.Child(dir.Flip()).Branch?
    requires parent == f.item.id && sibling == s.item.id && dir == f.dir && nephew == s.Child(dir.Flip()).item.id
    modifies root`turns, parent, sibling, nephew
    ensures root.turns == old(root.turns) + 1
    ensures Linked(Settle(f, s, t)) && top == Ptr(Settle(f, s, t))
  {
    ghost var g := Frame(s.item, f.color, dir, Recolor(s.Child(dir.Flip()), Black));
    ghost var h := f.(color := Black, sibling := Fill(g, s.Child(dir)));
    IdsAllocated(t);
    IdsAllocated(s);
    FillDistinct(f.(sibling := s), t);
    RecolorKeepsOrder(s.Child(dir.Flip()), Black);
    assert s == Fill(Frame(s.item, s.color, dir, s.Child(dir.Flip())), s.Child(dir));
    FillDistinct(Frame(s.item, s.color, dir, s.Child(dir.Flip())), s.Child(dir));
    FillDistinct(g, s.Child(dir));
    FillDistinct(h, t);
    PaintSibling(sibling, nephew, parent.Color(), dir, s);
    parent.SetColor(Black);
    top := RbRotate(root, parent, dir, Fill(h, t));
  }

  /** Cases 3 and 4 on the subtree of the parent. */
  method FinishBelow(ghost root: Root, parent: RbNode, sibling: RbNode, dir: Dir,
                     ghost f: Frame<RbNode>, ghost t: Tree<RbNode>)
    returns (top: RbNode)
    requires Linked(Fill(f, t)) && Distinct(Fill(f, t)) && f.sibling.Branch? && !BlackNephews(f)
    requires parent == f.item.id && sibling == f.sibling.item.id && dir == f.dir
    modifies root`turns, Ids(Fill(f, t))
    ensures Linked(RemoveFinish(f, t)) && top == Ptr(RemoveFinish(f, t))
    ensures root.turns == old(root.turns) + FinishTurns(f)
  {
    ghost var s := Straighten(dir, f.sibling);
    StraightenKeepsOrder(dir, f.sibling);
    FillDistinct(f, t);
    FillDistinct(f.(sibling := s), t);
    assert Linked(f.sibling) && parent.Child(dir.Flip()) == sibling;
    ChildColor(f.sibling, dir);
    ChildColor(f.sibling, dir.Flip());
    var straight := sibling;
    var nephew := sibling.Child(dir.Flip());
    if nephew == null || nephew.Color() == Black {
      straight := StraightenSibling(root, parent, sibling, sibling.Child(dir), dir, f, t);
      nephew := sibling;
    }
    top := SettleSibling(root, parent, straight, nephew, dir, f, s, t);
  }

  /** Cases 3 and 4 of the loop: the repaired subtree replaces the parent's. */
  method Finish(root: Root, rp: Path, parent: RbNode, sibling: RbNode, dir: Dir,
                ghost c: Ctx<RbNode>, ghost t: Tree<RbNode>)
    requires Holds(root, c, t) && rp.Tracks(c) && c.In? && c.frame.sibling.Branch? && !BlackNephews(c.frame)
    requires parent == c.frame.item.id && sibling == c.frame.sibling.item.id && dir == c.frame.dir
    modifies root, CtxIds(c), Ids(t)
    ensures Holds(root, Top, Plug(c.up, RemoveFinish(c.frame, t)))
    ensures Ids(Plug(c.up, RemoveFinish(c.frame, t))) == CtxIds(c) + Ids(t)
    ensures root.turns == old(root.turns) + FinishTurns(c.frame)
  {
    ghost var f, up := c.frame, c.up;
    CtxIdsAllocated(up);
    HoldsFill(root, c, t);
    FinishKeepsOrder(f, t);
    rp.NextEntry(c);
    var top := FinishBelow(root, parent, sibling, dir, f, t);
    Hang(root, rp.path[rp.cur - 1], top, up, parent, RemoveFinish(f, t));
    HoldsPlug(root, up, RemoveFinish(f, t));
  }

  /** The capacity the stack still needs: an entry above the focus's own level when case 1 applies. */
  lemma RoomForTurn(c: Ctx<RbNode>, t: Tree<RbNode>)
    requires c.In? && Short(c, t) && IsRed(c.frame.sibling)
    ensures Depth(c) + 1 < Reach(c)
  {
    SiblingExists(c, t);
    assert Height(c.frame.sibling.left) >= 1;
  }

  /** The first half of a round: finds the sibling and, when it is red, applies case 1. */
  method BlackSibling(root: Root, rp: Path, parent: RbNode, dir: Dir, ghost c: Ctx<RbNode>, ghost t: Tree<RbNode>)
    returns (sibling: RbNode)
    requires Holds(root, c, t) && rp.Tracks(c)
    requires c.In? && IsBlack(t) && Short(c, t) && Reach(c) < rp.path.Length
    requires parent == c.frame.item.id && dir == c.frame.dir
    modifies root, rp, rp.path, CtxIds(c)
    ensures Holds(root, Turned(c), t) && CtxIds(Turned(c)) == CtxIds(c) && rp.Tracks(Turned(c))
    ensures Turned(c).In? && Turned(c).frame.sibling.Branch? && sibling == Turned(c).frame.sibling.item.id
    ensures root.turns == old(root.turns) + SiblingTurns(c)
  {
    RoundKeepsDeficit(c, t);
    assert Linked(c.frame.sibling);
    sibling := parent.Child(dir.Flip());
    if sibling.Color() == Red {
      RoomForTurn(c, t);
      Turn(root, rp, parent, sibling, dir, c, t);
      sibling := parent.Child(dir.Flip());
    }
  }

  /** The test between case 2 and cases 3 and 4: has the sibling no red child? */
  method NoRedNephew(sibling: RbNode, dir: Dir, ghost s: Tree<RbNode>) returns (none: bool)
    requires Linked(s) && s.Branch? && sibling == s.item.id
    ensures none <==> IsBlack(s.left) && IsBlack(s.right)
  {
    ChildColor(s, dir);
    ChildColor(s, dir.Flip());
    var far, near := sibling.Child(dir.Flip()), sibling.Child(dir);
    none := (far == null || far.Color() == Black) && (near == null || near.Color() == Black);
  }

  /** One round of the loop for a black focus below the root. The last round ends at the root. */
  method Round(root: Root, rp: Path, ghost c: Ctx<RbNode>, ghost t: Tree<RbNode>)
    returns (done: bool, node: RbNode?, ghost c': Ctx<RbNode>, ghost t': Tree<RbNode>)
    requires Holds(root, c, t) && rp.Tracks(c)
    requires c.In? && IsBlack(t) && Short(c, t) && Reach(c) < rp.path.Length
    modifies root, rp, rp.path, CtxIds(c), Ids(t)
    ensures Holds(root, c', t') && CtxIds(c') + Ids(t') == CtxIds(c) + Ids(t) && node == Ptr(t')
    ensures !done ==> && rp.Tracks(c') && Deficit(c', t') && RemoveFix(c', t') == RemoveFix(c, t)
                      && (IsBlack(t') ==> c' == c.up)
                      && root.turns + RemoveTurns(c', t') == old(root.turns) + RemoveTurns(c, t)
    ensures done ==> && c' == Top && t' == RemoveFix(c, t) && Legal(t')
                     && root.turns == old(root.turns) + RemoveTurns(c, t)
  {
    IdsAllocated(t);
    CtxIdsAllocated(c);
    RoundKeepsDeficit(c, t);
    rp.TopEntry(c);
    var parent, dir := rp.path[rp.cur].parent, rp.path[rp.cur].dir;
    var sibling := BlackSibling(root, rp, parent, dir, c, t);
    done, node, c', t' := ChooseCase(root, rp, parent, sibling, dir, Turned(c), t);
  }

  /** The second half of a round: case 2, or cases 3 and 4. */
  method ChooseCase(root: Root, rp: Path, parent: RbNode, sibling: RbNode, dir: Dir,
                    ghost c: Ctx<RbNode>, ghost t: Tree<RbNode>)
    returns (done: bool, node: RbNode?, ghost c': Ctx<RbNode>, ghost t': Tree<RbNode>)
    requires Holds(root, c, t) && rp.Tracks(c) && c.In? && c.frame.sibling.Branch?
    requires parent == c.frame.item.id && sibling == c.frame.sibling.item.id && dir == c.frame.dir
    modifies root, rp`cur, CtxIds(c), Ids(t)
    ensures Holds(root, c', t') && CtxIds(c') + Ids(t') == CtxIds(c) + Ids(t) && node == Ptr(t')
    ensures done <==> !BlackNephews(c.frame)
    ensures !done ==> rp.Tracks(c') && c' == c.up && t' == RemoveLift(c.frame, t)
    ensures done ==> c' == Top && t' == Plug(c.up, RemoveFinish(c.frame, t))
    ensures root.turns == old(root.turns) + if done then FinishTurns(c.frame) else 0
  {
    IdsAllocated(t);
    CtxIdsAllocated(c);
    assert Linked(c.frame.sibling);
    var lift := NoRedNephew(sibling, dir, c.frame.sibling);
    done := !lift;
    if lift {
      node, c', t' := parent, c.up, RemoveLift(c.frame, t);
      rp.Pop(c);
      Lift(root, sibling, c, t);
    } else {
      c', t' := Top, Plug(c.up, RemoveFinish(c.frame, t));
      Finish(root, rp, parent, sibling, dir, c, t);
      node := root.root;
    }
  }

  method BlackenFocus(root: Root, node: RbNode?, ghost c: Ctx<RbNode>, ghost t: Tree<RbNode>)
    requires Holds(root, c, t) && node == Ptr(t)
    modifies Ids(t)
    ensures Holds(root, Top, Plug(c, Recolor(t, Black)))
    ensures Ids(Plug(c, Recolor(t, Black))) == CtxIds(c) + Ids(t)
  {
    IdsAllocated(t);
    CtxIdsAllocated(c);
    RecolorKeepsOrder(t, Black);
    if node != null {
      node.SetColor(Black);
    }
    HoldsPlug(root, c, Recolor(t, Black));
  }

  /** The loop of the repair. It ends at a focus that only needs to become black. */
  method RepairLoop(root: Root, node0: RbNode?, rp: Path, ghost c0: Ctx<RbNode>, ghost t0: Tree<RbNode>)
    returns (node: RbNode?, ghost c: Ctx<RbNode>, ghost t: Tree<RbNode>)
    requires Holds(root, c0, t0) && rp.Tracks(c0) && node0 == Ptr(t0)
    requires Short(c0, t0) && Reach(c0) < rp.path.Length
    modifies root, rp, rp.path, CtxIds(c0), Ids(t0)
    ensures Holds(root, c, t) && CtxIds(c) + Ids(t) == CtxIds(c0) + Ids(t0) && node == Ptr(t)
    ensures Plug(c, Recolor(t, Black)) == RemoveFix(c0, t0)
    ensures root.turns == old(root.turns) + RemoveTurns(c0, t0)
  {
    node, c, t := node0, c0, t0;
    IdsAllocated(t0);
    CtxIdsAllocated(c0);
    while true
      invariant Holds(root, c, t) && CtxIds(c) + Ids(t) == CtxIds(c0) + Ids(t0) && node == Ptr(t)
      invariant rp.Tracks(c) && Deficit(c, t) && RemoveFix(c, t) == RemoveFix(c0, t0)
      invariant IsBlack(t) ==> Reach(c) < rp.path.Length
      invariant root.turns + RemoveTurns(c, t) == old(root.turns) + RemoveTurns(c0, t0)
      decreases if IsRed(t) then 0 else Depth(c) + 1
    {
      RootIsAbove(c, node);
      if !((node == null || node.Color() == Black) && node != root.root) {
        break;
      }
      var done;
      done, node, c, t := Round(root, rp, c, t);
      if done {
        break;
      }
    }
  }

  /** Colour repair around the focus `t0`, which is one black level short, with as many rotations as the
      specification says, hence at most three. */
  method RbRemoveColor(root: Root, node0: RbNode?, rp: Path, ghost c0: Ctx<RbNode>, ghost t0: Tree<RbNode>)
    requires Holds(root, c0, t0) && rp.Tracks(c0) && node0 == Ptr(t0)
    requires Short(c0, t0) && Reach(c0) < rp.path.Length
    modifies root, rp, rp.path, CtxIds(c0), Ids(t0)
    ensures Holds(root, Top, RemoveFix(c0, t0))
    ensures Ids(RemoveFix(c0, t0)) == CtxIds(c0) + Ids(t0)
    ensures root.turns == old(root.turns) + RemoveTurns(c0, t0) && RemoveTurns(c0, t0) <= 3
  {
    var node;
    ghost var c, t;
    node, c, t := RepairLoop(root, node0, rp, c0, t0);
    RemoveTurnsAtMostThree(c0, t0);
    BlackenFocus(root, node, c, t);
  }

  // ---------- taking a node out ----------

  /** A deep successor `m` leaves its place below `inner` to its right child. */
  method Unhook(succ: RbNode, parent: RbNode, dir: Dir, ghost inner: Ctx<RbNode>, ghost m: Tree<RbNode>)
    requires Linked(Plug(inner, m)) && Distinct(Plug(inner, m)) && inner.In? && m.Branch? && m.left.Leaf?
    requires succ == m.item.id && parent == inner.frame.item.id && dir == inner.frame.dir
    modifies parent
    ensures Linked(Plug(inner, m.right)) && Ptr(Plug(inner, m.right)) == Ptr(Plug(inner, m))
    ensures parent != succ
  {
    IdsAllocated(m);
    CtxIdsAllocated(inner);
    LinkedPlug(inner, m);
    PlugIds(inner, m);
    assert Linked(m.right);
    parent.SetChild(dir, succ.Child(Right));
    LinkedPlug(inner, m.right);
  }

  /** The successor takes over left child and colour; its right word already is in place. */
  method Inherit(node: RbNode, succ: RbNode, ghost t: Tree<RbNode>, ghost rest: Tree<RbNode>, ghost x: Item<RbNode>)
    requires t.Branch? && Linked(t.left) && Linked(rest) && node == t.item.id
    requires node.left == Word(Ptr(t.left), t.color)
    requires succ !in Ids(t.left) && succ !in Ids(rest)
    requires succ.right == Word(Ptr(rest), Red) && x == Item(succ, succ.key)
    modifies succ
    ensures Linked(Branch(t.left, x, t.color, rest))
  {
    IdsAllocated(t.left);
    IdsAllocated(rest);
    succ.CopyLeftChildColor(node);
  }

  /** The successor `succ` leaves its place below `inner` and takes over the children and the colour
      of `node`. */
  method TakePlace(node: RbNode, succ: RbNode, parent: RbNode, dir: Dir,
                   ghost t: Tree<RbNode>, ghost inner: Ctx<RbNode>)
    requires Linked(t) && Distinct(t) && t.Branch? && t.left.Branch? && t.right.Branch?
    requires inner == SpineCtx(t.right, Left, Top) && node == t.item.id && succ == Spliced(t).item.id
    requires if inner.Top? then parent == node else parent == inner.frame.item.id && dir == inner.frame.dir
    modifies succ, parent
    ensures Linked(Unlinked(t)) && Ptr(Unlinked(t)) == succ
    ensures unchanged(node)
  {
    ghost var m := Spliced(t);
    ghost var rest := Plug(inner, m.right);
    IdsAllocated(t.left);
    IdsAllocated(rest);
    SuccessorIds(t, inner);
    LinkedPlug(inner, m);
    if parent != node {
      Unhook(succ, parent, dir, inner, m);
      succ.CopyRightChild(node);
    }
    assert Linked(rest);
    Inherit(node, succ, t, rest, m.item);
  }

  /** Finds the successor, stacking the way to it. */
  method FindSuccessor(rp: Path, node: RbNode, ghost c: Ctx<RbNode>, ghost t: Tree<RbNode>) returns (succ: RbNode)
    requires Linked(t) && t.Branch? && t.right.Branch? && node == t.item.id
    requires rp.Tracks(c) && Depth(c) + Height(t) < rp.path.Length
    modifies rp, rp.path
    ensures succ == SpineEnd(t.right, Left).item.id
    ensures rp.Tracks(Append(SpineCtx(t.right, Left, Top), In(FrameOf(t, Right), c)))
  {
    ghost var f := FrameOf(t, Right);
    IdsAllocated(t.right);
    assert Linked(t.right) && node.Child(Right) == Ptr(t.right);
    rp.Push(node, Right, f, c);
    SpineAppend(t.right, Left, Top, In(f, c));
    succ := Descend(rp, node.Child(Right), Left, t.right, In(f, c));
  }

  /** The stack leads to the successor: it is put in the node's place, and the entry for the node renamed. */
  method MoveUp(rp: Path, node: RbNode, succ: RbNode, k: nat, ghost c: Ctx<RbNode>, ghost t: Tree<RbNode>)
    requires Linked(t) && Distinct(t) && t.Branch? && t.left.Branch? && t.right.Branch? && node == t.item.id
    requires rp.Tracks(Append(SpineCtx(t.right, Left, Top), In(FrameOf(t, Right), c))) && k == Depth(c) + 1
    requires succ == Spliced(t).item.id && succ.key == Spliced(t).item.key
    modifies rp.path, Ids(t)
    ensures Linked(Unlinked(t)) && succ == Ptr(Unlinked(t)) && rp.Tracks(SplicedCtx(c, t))
    ensures unchanged(node)
  {
    ghost var f, inner := FrameOf(t, Right), SpineCtx(t.right, Left, Top);
    SpineAppend(t.right, Left, Top, In(f.(item := Spliced(t).item), c));
    SuccessorIds(t, inner);
    rp.TopEntry(Append(inner, In(f, c)));
    var parent, dir := rp.path[rp.cur].parent, rp.path[rp.cur].dir;
    TakePlace(node, succ, parent, dir, t, inner);
    IdsAllocated(Unlinked(t));
    rp.Patch(k, succ, inner, f, c);
  }

  /** Two children: the successor is put in the node's place, and the stack's entry for it renamed. */
  method UnlinkSuccessor(rp: Path, node: RbNode, ghost c: Ctx<RbNode>, ghost t: Tree<RbNode>)
    returns (succ: RbNode, replacement: RbNode?, deleted: Color)
    requires Linked(t) && Distinct(t) && t.Branch? && t.left.Branch? && t.right.Branch? && node == t.item.id
    requires rp.Tracks(c) && Depth(c) + Height(t) < rp.path.Length
    modifies rp, rp.path, Ids(t)
    ensures Linked(Unlinked(t)) && succ == Ptr(Unlinked(t)) && rp.Tracks(SplicedCtx(c, t))
    ensures replacement == Ptr(Remainder(Spliced(t))) && deleted == Spliced(t).color
    ensures unchanged(node)
  {
    ghost var m, inner := Spliced(t), SpineCtx(t.right, Left, Top);
    IdsAllocated(t);
    var k := rp.cur + 1;
    succ := FindSuccessor(rp, node, c, t);
    SuccessorIds(t, inner);
    LinkedPlug(inner, m);
    assert Linked(m);
    deleted := succ.Color();
    replacement := succ.Child(Right);
    MoveUp(rp, node, succ, k, c, t);
  }

  /** The three ways to take a node out of its place. */
  method Unlink(rp: Path, node: RbNode, ghost c: Ctx<RbNode>, ghost t: Tree<RbNode>)
    returns (transplanter: RbNode?, replacement: RbNode?, deleted: Color)
    requires Linked(t) && Distinct(t) && t.Branch? && node == t.item.id
    requires rp.Tracks(c) && Depth(c) + Height(t) < rp.path.Length
    modifies rp, rp.path, Ids(t)
    ensures Linked(Unlinked(t)) && transplanter == Ptr(Unlinked(t)) && rp.Tracks(SplicedCtx(c, t))
    ensures replacement == Ptr(Remainder(Spliced(t))) && deleted == Spliced(t).color
    ensures unchanged(node)
  {
    deleted := node.Color();
    if node.Child(Left) == null {
      transplanter := node.Child(Right);
      replacement := transplanter;
    } else if node.Child(Right) == null {
      transplanter := node.Child(Left);
      replacement := transplanter;
    } else {
      transplanter, replacement, deleted := UnlinkSuccessor(rp, node, c, t);
    }
  }

  /** The end of removal: repair, if a black node left its place. */
  method Repair(root: Root, node: RbNode?, deleted: Color, rp: Path, ghost c: Ctx<RbNode>, ghost t: Tree<RbNode>)
    requires Holds(root, c, t) && rp.Tracks(c) && node == Ptr(t)
    requires deleted == Black ==> Short(c, t) && Reach(c) < rp.path.Length
    modifies root, rp, rp.path, CtxIds(c), Ids(t)
    ensures var r := if deleted == Black then RemoveFix(c, t) else Plug(c, t);
            Holds(root, Top, r) && Ids(r) == CtxIds(c) + Ids(t)
    ensures root.turns == old(root.turns) + if deleted == Black then RemoveTurns(c, t) else 0
  {
    if deleted == Black {
      RbRemoveColor(root, node, rp, c, t);
    } else {
      HoldsPlug(root, c, t);
    }
  }

  /** Takes the node out of its place and hangs in what is left. */
  method Detach(root: Root, node: RbNode, rp: Path, ghost c: Ctx<RbNode>, ghost t: Tree<RbNode>)
    returns (replacement: RbNode?, deleted: Color)
    requires Holds(root, c, t) && t.Branch? && node == t.item.id && rp.Tracks(c)
    requires Depth(c) + Height(t) < rp.path.Length && Apart(c, Unlinked(t))
    modifies root`root, rp, rp.path, CtxIds(c), Ids(t)
    ensures Holds(root, c, Unlinked(t)) && rp.Tracks(SplicedCtx(c, t))
    ensures replacement == Ptr(Remainder(Spliced(t))) && deleted == Spliced(t).color
    ensures unchanged(node)
  {
    CtxIdsAllocated(c);
    rp.TopEntry(c);
    var place := rp.path[rp.cur];
    var transplanter;
    transplanter, replacement, deleted := Unlink(rp, node, c, t);
    Hang(root, place, transplanter, c, node, Unlinked(t));
  }

  /** Removes the node at the focus. The stack must hold its ancestors, as find and iteration leave them. */
  method RbRemove(root: Root, node: RbNode, rp: Path, ghost c: Ctx<RbNode>, ghost t: Tree<RbNode>)
    requires Holds(root, c, t) && t.Branch? && node == t.item.id && rp.Tracks(c)
    requires Legal(Plug(c, t)) && Height(Plug(c, t)) < rp.path.Length
    modifies root, rp, rp.path, CtxIds(c), Ids(t)
    ensures Holds(root, Top, RemoveAt(c, t))
    ensures Ids(RemoveAt(c, t)) == CtxIds(c) + Ids(t) - {node}
    ensures root.turns == old(root.turns) + RemoveAtTurns(c, t) && RemoveAtTurns(c, t) <= 3
    ensures unchanged(node)
  {
    ghost var c', rest := SplicedCtx(c, t), Remainder(Spliced(t));
    UnlinkedFacts(c, t);
    SplicedReach(c, t);
    PlugHeight(c, t);
    var replacement, deleted := Detach(root, node, rp, c, t);
    HoldsMoved(root, c, Unlinked(t), c', rest);
    Repair(root, replacement, deleted, rp, c', rest);
    RemoveTurnsAtMostThree(c', rest);
  }
}
