/** Colour repair after an insertion, on values: the tree that `rb_insert_color` of both
    implementations must produce from a red focus and its context. */
module InsertSpec {
  import opened Trees
  import opened Zippers
  import opened IterSpec

  /** Both cases of the black uncle: the focus `t` below `p` below `g` becomes the repaired subtree. */
  function InsertTurn<N>(g: Frame<N>, p: Frame<N>, t: Tree<N>): (r: Tree<N>)
    requires t.Branch?
    ensures r.Branch?
  {
    var straight := if p.dir == g.dir then Fill(p, t) else Rotate(Fill(p, t), g.dir);
    Rotate(Join(g.dir, Recolor(straight, Black), g.item, Red, g.sibling), g.dir.Flip())
  }

  /** The red-uncle case: colours are exchanged and the grandparent becomes the focus. */
  function InsertLift<N>(g: Frame<N>, p: Frame<N>, t: Tree<N>): Tree<N> {
    Join(g.dir, Fill(p.(color := Black), t), g.item, Red, Recolor(g.sibling, Black))
  }

  function InsertFix<N>(c: Ctx<N>, t: Tree<N>): Tree<N>
    requires t.Branch?
    decreases c
  {
    if c.Top? || c.frame.color.Black? || c.up.Top? then
      Recolor(Plug(c, t), Black)
    else if IsRed(c.up.frame.sibling) then
      InsertFix(c.up.up, InsertLift(c.up.frame, c.frame, t))
    else
      Recolor(Plug(c.up.up, InsertTurn(c.up.frame, c.frame, t)), Black)
  }

  /** The rotations of the black-uncle round: case 2, if the way to the focus bends, and case 3. */
  function TurnTurns<N>(g: Frame<N>, p: Frame<N>): nat { if p.dir == g.dir then 1 else 2 }

  /** The rotations that the repair needs. */
  function InsertTurns<N>(c: Ctx<N>, t: Tree<N>): nat
    requires t.Branch?
    decreases c
  {
    if c.Top? || c.frame.color.Black? || c.up.Top? then 0
    else if IsRed(c.up.frame.sibling) then InsertTurns(c.up.up, InsertLift(c.up.frame, c.frame, t))
    else TurnTurns(c.up.frame, c.frame)
  }

  lemma {:induction false} InsertTurnsAtMostTwo<N>(c: Ctx<N>, t: Tree<N>)
    requires t.Branch?
    ensures InsertTurns(c, t) <= 2
    decreases c
  {
    if !(c.Top? || c.frame.color.Black? || c.up.Top?) && IsRed(c.up.frame.sibling) {
      InsertTurnsAtMostTwo(c.up.up, InsertLift(c.up.frame, c.frame, t));
    }
  }

  /** Two is the least bound on the rotations of an insertion. */
  lemma InsertTurnsAreExact(k: nat)
    ensures (forall c: Ctx<int>, t: Tree<int> :: RedFocus(c, t) ==> InsertTurns(c, t) <= k) <==> k >= 2
  {
    forall c: Ctx<int>, t: Tree<int> | RedFocus(c, t)
      ensures InsertTurns(c, t) <= 2
    {
      InsertTurnsAtMostTwo(c, t);
    }
    var g := Frame(Item(3, 3), Black, Left, Leaf);
    var c, t := In(Frame(Item(1, 1), Red, Right, Leaf), In(g, Top)), Branch(Leaf, Item(2, 2), Red, Leaf);
    assert RedFocus(c, t) && InsertTurns(c, t) == 2;
  }

  // ---------- order and node objects ----------

  lemma LiftKeepsOrder<N>(g: Frame<N>, p: Frame<N>, t: Tree<N>)
    ensures InOrder(InsertLift(g, p, t)) == InOrder(Fill(g, Fill(p, t)))
    ensures Ids(InsertLift(g, p, t)) == Ids(Fill(g, Fill(p, t)))
    ensures Distinct(Fill(g, Fill(p, t))) ==> Distinct(InsertLift(g, p, t))
  {
    var black := p.(color := Black);
    FillDistinct(p, t);
    FillDistinct(black, t);
    RecolorKeepsOrder(g.sibling, Black);
    WalkFill(black, t, Right);
    WalkFill(p, t, Right);
    WalkFill(g, Fill(p, t), Right);
    WalkFill(g.(color := Red, sibling := Recolor(g.sibling, Black)), Fill(black, t), Right);
  }

  lemma TurnKeepsOrder<N>(g: Frame<N>, p: Frame<N>, t: Tree<N>)
    requires t.Branch?
    ensures InOrder(InsertTurn(g, p, t)) == InOrder(Fill(g, Fill(p, t)))
    ensures Ids(InsertTurn(g, p, t)) == Ids(Fill(g, Fill(p, t)))
    ensures Distinct(Fill(g, Fill(p, t))) ==> Distinct(InsertTurn(g, p, t))
  {
    var s := Fill(p, t);
    if p.dir != g.dir {
      RotateKeepsOrder(s, g.dir, Right);
      RotateKeepsIds(s, g.dir);
      s := Rotate(s, g.dir);
    }
    var black, red := Recolor(s, Black), g.(color := Red);
    RecolorKeepsOrder(s, Black);
    WalkFill(red, black, Right);
    WalkFill(g, Fill(p, t), Right);
    RotateKeepsOrder(Fill(red, black), g.dir.Flip(), Right);
    RotateKeepsIds(Fill(red, black), g.dir.Flip());
  }

  /** Repair moves no node in the order and neither adds nor drops one. */
  lemma {:induction false} InsertFixKeepsOrder<N>(c: Ctx<N>, t: Tree<N>)
    requires t.Branch?
    ensures InOrder(InsertFix(c, t)) == Before(c, Right) + InOrder(t) + After(c, Right)
    decreases c
  {
    WalkPlug(c, t, Right);
    RecolorKeepsOrder(Plug(c, t), Black);
    if !(c.Top? || c.frame.color.Black? || c.up.Top?) {
      var p, g, up := c.frame, c.up.frame, c.up.up;
      WalkPlug(up, Fill(g, Fill(p, t)), Right);
      if IsRed(g.sibling) {
        LiftKeepsOrder(g, p, t);
        InsertFixKeepsOrder(up, InsertLift(g, p, t));
      } else {
        var turned := InsertTurn(g, p, t);
        TurnKeepsOrder(g, p, t);
        WalkPlug(up, turned, Right);
        RecolorKeepsOrder(Plug(up, turned), Black);
      }
    }
  }

  // ---------- red-black laws ----------

  lemma TurnIsSound<N>(g: Frame<N>, p: Frame<N>, t: Tree<N>)
    requires t.Branch? && t.color.Red? && RedBlack(t)
    requires p.color.Red? && RedBlack(p.sibling) && IsBlack(p.sibling) && BlackHeight(p.sibling) == BlackHeight(t)
    requires RedBlack(g.sibling) && IsBlack(g.sibling) && BlackHeight(g.sibling) == BlackHeight(t)
    ensures var r := InsertTurn(g, p, t);
            Legal(r) && BlackHeight(r) == BlackHeight(t) + 1
  {
  }

  lemma LiftIsSound<N>(g: Frame<N>, p: Frame<N>, t: Tree<N>)
    requires t.Branch? && t.color.Red? && RedBlack(t)
    requires RedBlack(p.sibling) && IsBlack(p.sibling) && BlackHeight(p.sibling) == BlackHeight(t)
    requires RedBlack(g.sibling) && IsRed(g.sibling) && BlackHeight(g.sibling) == BlackHeight(t)
    ensures var r := InsertLift(g, p, t);
            IsRed(r) && RedBlack(r) && BlackHeight(r) == BlackHeight(t) + 1
  {
    FillSound(p.(color := Black), t);
  }

  /** The loop invariant of the repair: the only law that may be broken is a red focus below a red
      parent, or at the root. */
  predicate RedFocus<N>(c: Ctx<N>, t: Tree<N>) {
    IsRed(t) && RedBlack(t) && Sound(c, BlackHeight(t))
  }

  /** A red parent is not the root, so the grandparent exists; the red-uncle round keeps the invariant. */
  lemma RoundKeepsInvariant<N>(c: Ctx<N>, t: Tree<N>)
    requires RedFocus(c, t) && c.In? && c.frame.color.Red?
    ensures c.up.In?
    ensures var r := InsertLift(c.up.frame, c.frame, t);
            IsRed(c.up.frame.sibling) ==>
              && RedFocus(c.up.up, r)
              && InsertFix(c, t) == InsertFix(c.up.up, r) && InsertTurns(c, t) == InsertTurns(c.up.up, r)
    ensures IsBlack(c.up.frame.sibling) ==>
              && InsertFix(c, t) == Recolor(Plug(c.up.up, InsertTurn(c.up.frame, c.frame, t)), Black)
              && InsertTurns(c, t) == TurnTurns(c.up.frame, c.frame)
  {
    assert Sound(c.up, BlackHeight(t));
    if IsRed(c.up.frame.sibling) {
      LiftIsSound(c.up.frame, c.frame, t);
    }
  }

  /** From every such state the repair makes a legal tree. */
  lemma {:induction false} InsertFixIsLegal<N>(c: Ctx<N>, t: Tree<N>)
    requires RedFocus(c, t)
    ensures Legal(InsertFix(c, t))
    decreases c
  {
    if c.In? && c.frame.color.Red? {
      RoundKeepsInvariant(c, t);
      assert Sound(c.up, BlackHeight(t));
      var g, up := c.up.frame, c.up.up;
      if IsRed(g.sibling) {
        InsertFixIsLegal(up, InsertLift(g, c.frame, t));
      } else {
        TurnIsSound(g, c.frame, t);
        PlugLegal(up, InsertTurn(g, c.frame, t));
      }
    } else if c.In? {
      PlugLegal(c, t);
    }
  }

  /** The child of the turned subtree at which the parent-pointer loop continues. */
  function TurnedCtx<N>(c: Ctx<N>, t: Tree<N>): Ctx<N>
    requires t.Branch? && c.In? && c.up.In?
  {
    In(FrameOf(InsertTurn(c.up.frame, c.frame, t), c.up.frame.dir), c.up.up)
  }

  /** The black-uncle round also keeps the loop invariant, and leaves a black parent, so that the
      parent-pointer loop, which has no break, ends there. */
  lemma TurnKeepsInvariant<N>(c: Ctx<N>, t: Tree<N>)
    requires RedFocus(c, t) && c.In? && c.frame.color.Red? && c.up.In? && IsBlack(c.up.frame.sibling)
    ensures var r := InsertTurn(c.up.frame, c.frame, t);
            var t' := r.Child(c.up.frame.dir);
            && TurnedCtx(c, t).frame.color.Black? && RedFocus(TurnedCtx(c, t), t')
            && InsertFix(TurnedCtx(c, t), t') == InsertFix(c, t) && InsertTurns(TurnedCtx(c, t), t') == 0
            && t'.item.id == if c.frame.dir == c.up.frame.dir then t.item.id else c.frame.item.id
  {
    var p, g, up := c.frame, c.up.frame, c.up.up;
    assert Sound(c.up, BlackHeight(t));
    TurnIsSound(g, p, t);
    var r := InsertTurn(g, p, t);
    FillSound(FrameOf(r, g.dir), r.Child(g.dir));
  }
}
