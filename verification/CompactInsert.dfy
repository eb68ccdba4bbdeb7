/** Insertion's colour repair in the compact tree, `rb_insert_color`. */
module CompactInsert {
  import opened Trees
  import opened Zippers
  import opened InsertSpec
  import opened CompactHeap

  /** Case 2 of the repair: makes the way from the grandparent `g` to the focus straight. */
  method Straighten(ghost root: Root, parent: RbNode, gparent: RbNode, dir: Dir, turn: bool,
                    ghost g: Frame<RbNode>, ghost p: Frame<RbNode>, ghost t: Tree<RbNode>)
    returns (top: RbNode)
    requires Linked(Fill(g, Fill(p, t))) && Distinct(Fill(g, Fill(p, t))) && t.Branch?
    requires parent == p.item.id && gparent == g.item.id && dir == g.dir && turn == (p.dir != dir)
    modifies root`turns, gparent, parent, t.item.id
    ensures root.turns == old(root.turns) + if turn then 1 else 0
    ensures var s := if turn then Rotate(Fill(p, t), dir) else Fill(p, t);
            Linked(Fill(g, s)) && top == Ptr(s)
  {
    IdsAllocated(Fill(p, t));
    IdsAllocated(g.sibling);
    top := parent;
    if turn {
      RotateKeepsIds(Fill(p, t), dir);
      top := RbRotate(root, parent, dir, Fill(p, t));
      gparent.SetChild(dir, top);
    }
  }

  /** Case 3 of the repair: the straight subtree `s` below `g` comes up in `g`'s place. */
  method RaiseStraight(ghost root: Root, parent: RbNode, gparent: RbNode, dir: Dir,
                       ghost g: Frame<RbNode>, ghost s: Tree<RbNode>)
    returns (top: RbNode)
    requires Linked(Fill(g, s)) && Distinct(Fill(g, s)) && s.Branch?
    requires parent == s.item.id && gparent == g.item.id && dir == g.dir
    modifies root`turns, gparent, parent
    ensures root.turns == old(root.turns) + 1
    ensures var r := Rotate(Fill(g.(color := Red), Recolor(s, Black)), dir.Flip());
            Linked(r) && top == Ptr(r)
  {
    IdsAllocated(s);
    IdsAllocated(g.sibling);
    FillDistinct(g, s);
    parent.SetColor(Black);
    gparent.SetColor(Red);
    RecolorKeepsOrder(s, Black);
    FillDistinct(g.(color := Red), Recolor(s, Black));
    top := RbRotate(root, gparent, dir.Flip(), Fill(g.(color := Red), Recolor(s, Black)));
  }

  /** Cases 2 and 3 on the subtree of the grandparent. */
  method TurnBelow(ghost root: Root, parent: RbNode, gparent: RbNode, dir: Dir, turn: bool,
                   ghost g: Frame<RbNode>, ghost p: Frame<RbNode>, ghost t: Tree<RbNode>)
    returns (top: RbNode)
    requires Linked(Fill(g, Fill(p, t))) && Distinct(Fill(g, Fill(p, t))) && t.Branch?
    requires parent == p.item.id && gparent == g.item.id && dir == g.dir && turn == (p.dir != dir)
    modifies root`turns, gparent, parent, t.item.id
    ensures Linked(InsertTurn(g, p, t)) && top == Ptr(InsertTurn(g, p, t))
    ensures root.turns == old(root.turns) + TurnTurns(g, p)
  {
    ghost var s := if turn then Rotate(Fill(p, t), dir) else Fill(p, t);
    if turn {
      RotateKeepsIds(Fill(p, t), dir);
    }
    FillDistinct(g, Fill(p, t));
    FillDistinct(g, s);
    top := Straighten(root, parent, gparent, dir, turn, g, p, t);
    top := RaiseStraight(root, top, gparent, dir, g, s);
  }

  /** The black-uncle branch of the loop: cases 2 and 3, and the new subtree hung in. */
  method Turn(root: Root, rp: Path, ghost c: Ctx<RbNode>, ghost t: Tree<RbNode>)
    requires Holds(root, c, t) && rp.Tracks(c) && t.Branch? && c.In? && c.up.In?
    modifies root, CtxIds(c), Ids(t)
    ensures Holds(root, c.up.up, InsertTurn(c.up.frame, c.frame, t))
    ensures CtxIds(c.up.up) + Ids(InsertTurn(c.up.frame, c.frame, t)) == CtxIds(c) + Ids(t)
    ensures root.turns == old(root.turns) + TurnTurns(c.up.frame, c.frame)
  {
    ghost var p, g, up := c.frame, c.up.frame, c.up.up;
    rp.TopEntry(c);
    rp.NextEntry(c);
    rp.ThirdEntry(c);
    CtxIdsAllocated(up);
    HoldsFill(root, c, t);
    HoldsFill(root, c.up, Fill(p, t));
    TurnKeepsOrder(g, p, t);
    var parent, gparent, dir := rp.path[rp.cur].parent, rp.path[rp.cur - 1].parent, rp.path[rp.cur - 1].dir;
    var top := TurnBelow(root, parent, gparent, dir, rp.path[rp.cur].dir != dir, g, p, t);
    Hang(root, rp.path[rp.cur - 2], top, up, gparent, InsertTurn(g, p, t));
  }

  /** Parent and uncle, the roots of two trees, become black. */
  method Blacken(parent: RbNode, uncle: RbNode, ghost s: Tree<RbNode>, ghost u: Tree<RbNode>)
    requires Linked(s) && Linked(u) && Distinct(s) && Distinct(u) && Ids(s) !! Ids(u)
    requires s.Branch? && u.Branch? && parent == s.item.id && uncle == u.item.id
    modifies parent, uncle
    ensures Linked(Recolor(s, Black)) && Linked(Recolor(u, Black))
    ensures parent.Child(Left) == old(parent.Child(Left)) && parent.Child(Right) == old(parent.Child(Right))
  {
    IdsAllocated(s);
    IdsAllocated(u);
    parent.SetColor(Black);
    assert Linked(u) && Linked(Recolor(s, Black));
    uncle.SetColor(Black);
  }

  /** Case 1 on the subtree of the grandparent: parent and uncle become black, the grandparent red. */
  method Exchange(parent: RbNode, uncle: RbNode, gparent: RbNode,
                  ghost g: Frame<RbNode>, ghost p: Frame<RbNode>, ghost t: Tree<RbNode>)
    requires Linked(Fill(g, Fill(p, t))) && Distinct(Fill(g, Fill(p, t))) && g.sibling.Branch?
    requires parent == p.item.id && gparent == g.item.id && uncle == g.sibling.item.id
    modifies parent, uncle, gparent
    ensures Linked(InsertLift(g, p, t))
  {
    IdsAllocated(Fill(p, t));
    IdsAllocated(g.sibling);
    FillDistinct(g, Fill(p, t));
    assert Linked(Fill(p, t)) && Linked(g.sibling);
    Blacken(parent, uncle, Fill(p, t), g.sibling);
    assert Recolor(Fill(p, t), Black) == Fill(p.(color := Black), t);
    gparent.SetColor(Red);
  }

  /** The red-uncle branch of the loop: case 1, and the grandparent becomes the focus. */
  method Lift(root: Root, parent: RbNode, uncle: RbNode, gparent: RbNode, ghost c: Ctx<RbNode>, ghost t: Tree<RbNode>)
    requires Holds(root, c, t) && c.In? && c.up.In? && c.up.frame.sibling.Branch?
    requires parent == c.frame.item.id && gparent == c.up.frame.item.id && uncle == c.up.frame.sibling.item.id
    modifies parent, uncle, gparent
    ensures Holds(root, c.up.up, InsertLift(c.up.frame, c.frame, t))
    ensures CtxIds(c.up.up) + Ids(InsertLift(c.up.frame, c.frame, t)) == CtxIds(c) + Ids(t)
  {
    ghost var p, g, up := c.frame, c.up.frame, c.up.up;
    CtxIdsAllocated(up);
    HoldsFill(root, c, t);
    HoldsFill(root, c.up, Fill(p, t));
    LiftKeepsOrder(g, p, t);
    Exchange(parent, uncle, gparent, g, p, t);
  }

  method BlackenRoot(root: Root, ghost c: Ctx<RbNode>, ghost t: Tree<RbNode>)
    requires Holds(root, c, t) && t.Branch?
    modifies CtxIds(c), Ids(t)
    ensures Holds(root, Top, Recolor(Plug(c, t), Black))
    ensures Ids(Recolor(Plug(c, t), Black)) == CtxIds(c) + Ids(t)
  {
    HoldsPlug(root, c, t);
    PlugBranch(c, t);
    IdsAllocated(Plug(c, t));
    RecolorKeepsOrder(Plug(c, t), Black);
    root.root.SetColor(Black);
  }

  /** What the stack's two top entries and the uncle's colour word say about the context. */
  lemma Relatives(root: Root, rp: Path, c: Ctx<RbNode>, t: Tree<RbNode>)
    requires Holds(root, c, t) && rp.Tracks(c) && c.In? && c.up.In?
    ensures var p, g := c.frame, c.up.frame;
            && rp.cur >= 2 && rp.path[rp.cur].parent == p.item.id && rp.path[rp.cur - 1] == Entry(g.item.id, g.dir)
            && g.item.id.Child(g.dir.Flip()) == Ptr(g.sibling)
            && (g.sibling.Branch? ==> g.sibling.item.id.Color() == g.sibling.color)
  {
    rp.TopEntry(c);
    rp.NextEntry(c);
    assert CtxLinked(c.up, c.frame.item.id) && Linked(c.up.frame.sibling);
  }

  /** One round of the repair below a red parent. The round of a black uncle is the last one. */
  method Round(root: Root, rp: Path, parent: RbNode, ghost c: Ctx<RbNode>, ghost t: Tree<RbNode>)
    returns (done: bool, ghost c': Ctx<RbNode>, ghost t': Tree<RbNode>)
    requires Holds(root, c, t) && rp.Tracks(c) && RedFocus(c, t)
    requires c.In? && c.frame.color.Red? && parent == c.frame.item.id
    modifies root, rp`cur, CtxIds(c), Ids(t)
    ensures Holds(root, c', t') && CtxIds(c') + Ids(t') == CtxIds(c) + Ids(t) && t'.Branch?
    ensures !done ==> && rp.Tracks(c') && RedFocus(c', t') && InsertFix(c', t') == InsertFix(c, t) && c' == c.up.up
                      && InsertTurns(c', t') == InsertTurns(c, t) && root.turns == old(root.turns)
    ensures done ==> && Recolor(Plug(c', t'), Black) == InsertFix(c, t)
                     && root.turns == old(root.turns) + InsertTurns(c, t)
  {
    IdsAllocated(t);
    CtxIdsAllocated(c);
    RoundKeepsInvariant(c, t);
    Relatives(root, rp, c, t);
    var gparent := rp.path[rp.cur - 1].parent;
    var dir := rp.path[rp.cur - 1].dir;
    var uncle := gparent.Child(dir.Flip());
    c' := c.up.up;
    if uncle != null && uncle.Color() == Red {
      done, t' := false, InsertLift(c.up.frame, c.frame, t);
      rp.PopTwo(c);
      Lift(root, parent, uncle, gparent, c, t);
    } else {
      done, t' := true, InsertTurn(c.up.frame, c.frame, t);
      Turn(root, rp, c, t);
    }
  }

  /** The loop of the repair. */
  method RepairLoop(root: Root, rp: Path, ghost c0: Ctx<RbNode>, ghost t0: Tree<RbNode>)
    returns (ghost c: Ctx<RbNode>, ghost t: Tree<RbNode>)
    requires Holds(root, c0, t0) && rp.Tracks(c0) && RedFocus(c0, t0)
    modifies root, rp`cur, CtxIds(c0), Ids(t0)
    ensures Holds(root, c, t) && CtxIds(c) + Ids(t) == CtxIds(c0) + Ids(t0) && t.Branch?
    ensures Recolor(Plug(c, t), Black) == InsertFix(c0, t0)
    ensures root.turns == old(root.turns) + InsertTurns(c0, t0)
  {
    c, t := c0, t0;
    IdsAllocated(t0);
    CtxIdsAllocated(c0);
    while true
      invariant Holds(root, c, t) && CtxIds(c) + Ids(t) == CtxIds(c0) + Ids(t0)
      invariant rp.Tracks(c) && RedFocus(c, t)
      invariant InsertFix(c, t) == InsertFix(c0, t0)
      invariant InsertTurns(c, t) == InsertTurns(c0, t0) && root.turns == old(root.turns)
      decreases c
    {
      rp.TopEntry(c);
      var parent := rp.path[rp.cur].parent;
      if parent == null || parent.Color() != Red {
        break;
      }
      var done;
      done, c, t := Round(root, rp, parent, c, t);
      if done {
        break;
      }
    }
  }

  /** Colour repair from the red focus `t0` whose ancestors are on the stack, with as many rotations as
      the specification says, hence at most two. */
  method RbInsertColor(root: Root, rp: Path, ghost c0: Ctx<RbNode>, ghost t0: Tree<RbNode>)
    requires Holds(root, c0, t0) && rp.Tracks(c0) && RedFocus(c0, t0)
    modifies root, rp`cur, CtxIds(c0), Ids(t0)
    ensures Holds(root, Top, InsertFix(c0, t0))
    ensures Ids(InsertFix(c0, t0)) == CtxIds(c0) + Ids(t0)
    ensures root.turns == old(root.turns) + InsertTurns(c0, t0) && InsertTurns(c0, t0) <= 2
  {
    ghost var c, t := RepairLoop(root, rp, c0, t0);
    InsertTurnsAtMostTwo(c0, t0);
    BlackenRoot(root, c, t);
  }
}
