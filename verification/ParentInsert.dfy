/** Insertion's colour repair in the parent-pointer tree: `rb_insert_color`. */
module ParentInsert {
  import opened Trees
  import opened Zippers
  import opened InsertSpec
  import opened ParentHeap

  /** Parent and uncle, the roots of two trees below `above`, become black. */
  method Blacken(parent: RbNode, uncle: RbNode, ghost s: Tree<RbNode>, ghost u: Tree<RbNode>, ghost above: RbNode?)
    requires Linked(s, above) && Linked(u, above) && Distinct(s) && Distinct(u) && Ids(s) !! Ids(u)
    requires s.Branch? && u.Branch? && parent == s.item.id && uncle == u.item.id
    modifies parent, uncle
    ensures Linked(Recolor(s, Black), above) && Linked(Recolor(u, Black), above)
  {
    IdsAllocated(s);
    IdsAllocated(u);
    parent.SetColor(Black);
    assert Linked(u, above) && Linked(Recolor(s, Black), above);
    uncle.SetColor(Black);
  }

  /** Case 1 on the subtree of the grandparent: parent and uncle become black, the grandparent red. */
  method Exchange(parent: RbNode, uncle: RbNode, gparent: RbNode,
                  ghost g: Frame<RbNode>, ghost p: Frame<RbNode>, ghost t: Tree<RbNode>, ghost above: RbNode?)
    requires Linked(Fill(g, Fill(p, t)), above) && Distinct(Fill(g, Fill(p, t))) && g.sibling.Branch?
    requires parent == p.item.id && gparent == g.item.id && uncle == g.sibling.item.id
    modifies parent, uncle, gparent
    ensures Linked(InsertLift(g, p, t), above)
  {
    IdsAllocated(Fill(p, t));
    IdsAllocated(g.sibling);
    FillDistinct(g, Fill(p, t));
    assert Linked(Fill(p, t), gparent) && Linked(g.sibling, gparent);
    Blacken(parent, uncle, Fill(p, t), g.sibling, gparent);
    assert Recolor(Fill(p, t), Black) == Fill(p.(color := Black), t);
    gparent.SetColor(Red);
  }

  /** The red-uncle branch of the loop. */
  method Lift(root: Root, parent: RbNode, uncle: RbNode, gparent: RbNode, ghost c: Ctx<RbNode>, ghost t: Tree<RbNode>)
    requires Holds(root, c, t) && c.In? && c.up.In? && c.up.frame.sibling.Branch?
    requires parent == c.frame.item.id && gparent == c.up.frame.item.id && uncle == c.up.frame.sibling.item.id
    modifies parent, uncle, gparent
    ensures Holds(root, c.up.up, InsertLift(c.up.frame, c.frame, t))
    ensures CtxIds(c.up.up) + Ids(InsertLift(c.up.frame, c.frame, t)) == CtxIds(c) + Ids(t)
  {
    ghost var p, g, up := c.frame, c.up.frame, c.up.up;
    CtxIdsAllocated(up);
    HoldsFill(root, c, t);
    HoldsFill(root, c.up, Fill(p, t));
    LiftKeepsOrder(g, p, t);
    Exchange(parent, uncle, gparent, g, p, t, Above(up, null));
  }

  /** Case 3: the straight subtree `s` below `g` comes up in `g`'s place. */
  method RaiseStraight(root: Root, parent: RbNode, gparent: RbNode, dir: Dir,
                       ghost g: Frame<RbNode>, ghost up: Ctx<RbNode>, ghost s: Tree<RbNode>)
    requires Holds(root, In(g, up), s) && s.Branch?
    requires parent == s.item.id && gparent == g.item.id && dir == g.dir
    modifies root, CtxIds(In(g, up)), Ids(s)
    ensures var r := Rotate(Fill(g.(color := Red), Recolor(s, Black)), dir.Flip());
            Holds(root, up, r) && CtxIds(up) + Ids(r) == CtxIds(In(g, up)) + Ids(s)
    ensures root.turns == old(root.turns) + 1
  {
    ghost var s', g' := Recolor(s, Black), g.(color := Red);
    IdsAllocated(s);
    CtxIdsAllocated(In(g, up));
    RecolorKeepsOrder(s, Black);
    parent.SetColor(Black);
    gparent.SetColor(Red);
    assert Holds(root, In(g', up), s');
    HoldsFill(root, In(g', up), s');
    RbRotate(root, gparent, dir.Flip(), up, Fill(g', s'));
  }

  /** The black-uncle branch of the loop: cases 2 and 3. In case 2 node and parent change roles. */
  method Turn(root: Root, node0: RbNode, parent0: RbNode, gparent: RbNode, dir: Dir,
              ghost c: Ctx<RbNode>, ghost t: Tree<RbNode>)
    returns (node: RbNode)
    requires Holds(root, c, t) && t.Branch? && c.In? && c.up.In?
    requires node0 == t.item.id && parent0 == c.frame.item.id && gparent == c.up.frame.item.id && dir == c.up.frame.dir
    modifies root, CtxIds(c), Ids(t)
    ensures Holds(root, c.up.up, InsertTurn(c.up.frame, c.frame, t))
    ensures CtxIds(c.up.up) + Ids(InsertTurn(c.up.frame, c.frame, t)) == CtxIds(c) + Ids(t)
    ensures node == if c.frame.dir == dir then node0 else parent0
    ensures root.turns == old(root.turns) + TurnTurns(c.up.frame, c.frame)
  {
    ghost var p, g, up := c.frame, c.up.frame, c.up.up;
    var parent := parent0;
    node := node0;
    CtxIdsAllocated(c);
    IdsAllocated(t);
    FocusParent(root, c, t);
    HoldsFill(root, c, t);
    ghost var s := Fill(p, t);
    if parent.Child(dir.Flip()) == node {
      RbRotate(root, parent, dir, c.up, s);
      s := Rotate(s, dir);
      node, parent := parent, node;
    }
    RaiseStraight(root, parent, gparent, dir, g, up, s);
  }

  /** A bound on the rounds to come: none below a black parent or at the root. */
  function RoundsLeft(c: Ctx<RbNode>): nat {
    if c.In? && c.frame.color.Red? then Depth(c) else 0
  }

  /** One round of the repair below a red parent. */
  method Round(root: Root, node0: RbNode, parent: RbNode, ghost c: Ctx<RbNode>, ghost t: Tree<RbNode>)
    returns (node: RbNode, ghost c': Ctx<RbNode>, ghost t': Tree<RbNode>)
    requires Holds(root, c, t) && RedFocus(c, t) && c.In? && c.frame.color.Red?
    requires node0 == t.item.id && parent == c.frame.item.id
    modifies root, CtxIds(c), Ids(t)
    ensures Holds(root, c', t') && CtxIds(c') + Ids(t') == CtxIds(c) + Ids(t)
    ensures RedFocus(c', t') && node == t'.item.id && InsertFix(c', t') == InsertFix(c, t)
    ensures RoundsLeft(c') < RoundsLeft(c)
    ensures root.turns + InsertTurns(c', t') == old(root.turns) + InsertTurns(c, t)
  {
    CtxIdsAllocated(c);
    IdsAllocated(t);
    RoundKeepsInvariant(c, t);
    ghost var p, g, up := c.frame, c.up.frame, c.up.up;
    assert Depth(c) == 2 + Depth(up);
    HoldsFill(root, c, t);
    FocusParent(root, c.up, Fill(p, t));
    var gparent := parent.Parent();
    var dir := if gparent.Child(Left) == parent then Left else Right;
    var uncle := gparent.Child(dir.Flip());
    assert Linked(g.sibling, gparent) && uncle == Ptr(g.sibling);
    if uncle != null && uncle.Color() == Red {
      Lift(root, parent, uncle, gparent, c, t);
      node, c', t' := gparent, up, InsertLift(g, p, t);
    } else {
      TurnKeepsInvariant(c, t);
      c', t' := TurnedCtx(c, t), InsertTurn(g, p, t).Child(dir);
      node := Turn(root, node0, parent, gparent, dir, c, t);
      HoldsFill(root, c', t');
    }
  }

  method BlackenRoot(root: Root, ghost c: Ctx<RbNode>, ghost t: Tree<RbNode>)
    requires Holds(root, c, t) && t.Branch?
    modifies CtxIds(c), Ids(t)
    ensures Holds(root, Top, Recolor(Plug(c, t), Black))
    ensures Ids(Recolor(Plug(c, t), Black)) == CtxIds(c) + Ids(t)
  {
    HoldsPlug(root, c, t);
    PlugBranch(c, t);
    IdsAllocated(Plug(c, t));
    RecolorKeepsOrder(Plug(c, t), Black);
    root.root.SetColor(Black);
  }

  /** The loop of the repair. It ends at the root or below a black parent. */
  method RepairLoop(root: Root, node0: RbNode, ghost c0: Ctx<RbNode>, ghost t0: Tree<RbNode>)
    returns (ghost c: Ctx<RbNode>, ghost t: Tree<RbNode>)
    requires Holds(root, c0, t0) && RedFocus(c0, t0) && node0 == t0.item.id
    modifies root, CtxIds(c0), Ids(t0)
    ensures Holds(root, c, t) && CtxIds(c) + Ids(t) == CtxIds(c0) + Ids(t0) && t.Branch?
    ensures Recolor(Plug(c, t), Black) == InsertFix(c0, t0)
    ensures root.turns == old(root.turns) + InsertTurns(c0, t0)
  {
    var node := node0;
    c, t := c0, t0;
    IdsAllocated(t0);
    CtxIdsAllocated(c0);
    while true
      invariant Holds(root, c, t) && CtxIds(c) + Ids(t) == CtxIds(c0) + Ids(t0)
      invariant RedFocus(c, t) && node == t.item.id && InsertFix(c, t) == InsertFix(c0, t0)
      invariant root.turns + InsertTurns(c, t) == old(root.turns) + InsertTurns(c0, t0)
      decreases RoundsLeft(c)
    {
      FocusParent(root, c, t);
      var parent := node.Parent();
      if parent == null || parent.Color() != Red {
        break;
      }
      node, c, t := Round(root, node, parent, c, t);
    }
  }

  /** Colour repair from the red focus `t0`, with as many rotations as the specification says, hence at
      most two. */
  method RbInsertColor(root: Root, node0: RbNode, ghost c0: Ctx<RbNode>, ghost t0: Tree<RbNode>)
    requires Holds(root, c0, t0) && RedFocus(c0, t0) && node0 == t0.item.id
    modifies root, CtxIds(c0), Ids(t0)
    ensures Holds(root, Top, InsertFix(c0, t0))
    ensures Ids(InsertFix(c0, t0)) == CtxIds(c0) + Ids(t0)
    ensures root.turns == old(root.turns) + InsertTurns(c0, t0) && InsertTurns(c0, t0) <= 2
  {
    ghost var c, t := RepairLoop(root, node0, c0, t0);
    InsertTurnsAtMostTwo(c0, t0);
    BlackenRoot(root, c, t);
  }
}
