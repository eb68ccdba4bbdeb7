/** Removal on values: how a node leaves the tree, and the colour repair that `rb_remove_color` of
    both implementations must perform around a subtree that lost one black level. */
module RemoveSpec {
  import opened Trees
  import opened Zippers
  import opened IterSpec

  // ---------- colour repair ----------

  /** Case 1, red sibling: its branch and the frame change places. The result is the context of the
      unchanged focus, one frame deeper, whose sibling is black. */
  function RemoveTurn<N>(f: Frame<N>, up: Ctx<N>): (c: Ctx<N>)
    requires f.sibling.Branch?
    ensures c.In? && c.up.In? && c.frame.color.Red?
  {
    var s := f.sibling;
    In(Frame(f.item, Red, f.dir, s.Child(f.dir)),
       In(Frame(s.item, Black, f.dir, s.Child(f.dir.Flip())), up))
  }

  /** Are both nephews black, so that the sibling can give up a level too (case 2)? */
  predicate BlackNephews<N>(f: Frame<N>)
    requires f.sibling.Branch?
  {
    IsBlack(f.sibling.left) && IsBlack(f.sibling.right)
  }

  /** Case 3: the sibling after a rotation that brings the red nephew to the far side. */
  function Straighten<N>(d: Dir, s: Tree<N>): (r: Tree<N>)
    requires s.Branch? && !(IsBlack(s.left) && IsBlack(s.right))
    ensures r.Branch?
  {
    if IsRed(s.Child(d.Flip())) then s
    else Rotate(Join(d, Recolor(s.Child(d), Black), s.item, Red, s.Child(d.Flip())), d.Flip())
  }

  /** Case 4: one rotation gives the focus its level back. */
  function Settle<N>(f: Frame<N>, s: Tree<N>, t: Tree<N>): (r: Tree<N>)
    requires s.Branch?
    ensures r.Branch?
  {
    var d := f.dir;
    Rotate(Join(d, t, f.item, Black, Join(d, s.Child(d), s.item, f.color, Recolor(s.Child(d.Flip()), Black))), d)
  }

  /** Cases 3 and 4 in a row. */
  function RemoveFinish<N>(f: Frame<N>, t: Tree<N>): (r: Tree<N>)
    requires f.sibling.Branch? && !BlackNephews(f)
    ensures r.Branch?
  {
    Settle(f, Straighten(f.dir, f.sibling), t)
  }

  /** Case 2: the sibling turns red and the deficit moves up to the parent. */
  function RemoveLift<N>(f: Frame<N>, t: Tree<N>): Tree<N> {
    Fill(f.(sibling := Recolor(f.sibling, Red)), t)
  }

  /** One round of the repair once the sibling is black. */
  function RemoveFix<N>(c: Ctx<N>, t: Tree<N>): Tree<N>
    decreases c
  {
    if c.Top? || IsRed(t) then
      Plug(c, Recolor(t, Black))
    else if c.frame.sibling.Leaf? then
      Plug(c, t)
    else if IsRed(c.frame.sibling) then
      var c' := RemoveTurn(c.frame, c.up);
      if c'.frame.sibling.Leaf? then Plug(c', t)
      else if BlackNephews(c'.frame) then
        Plug(c'.up, Recolor(RemoveLift(c'.frame, t), Black))
      else
        Plug(c'.up, RemoveFinish(c'.frame, t))
    else if BlackNephews(c.frame) then
      RemoveFix(c.up, RemoveLift(c.frame, t))
    else
      Plug(c.up, RemoveFinish(c.frame, t))
  }

  /** The rotations of the last round: case 3, if the far nephew is black, and case 4. */
  function FinishTurns<N>(f: Frame<N>): nat
    requires f.sibling.Branch?
  {
    if IsRed(f.sibling.Child(f.dir.Flip())) then 1 else 2
  }

  /** The rotations that the repair needs. */
  function RemoveTurns<N>(c: Ctx<N>, t: Tree<N>): nat
    decreases c
  {
    if c.Top? || IsRed(t) || c.frame.sibling.Leaf? then 0
    else if IsRed(c.frame.sibling) then
      var c' := RemoveTurn(c.frame, c.up);
      if c'.frame.sibling.Leaf? || BlackNephews(c'.frame) then 1 else 1 + FinishTurns(c'.frame)
    else if BlackNephews(c.frame) then RemoveTurns(c.up, RemoveLift(c.frame, t))
    else FinishTurns(c.frame)
  }

  lemma {:induction false} RemoveTurnsAtMostThree<N>(c: Ctx<N>, t: Tree<N>)
    ensures RemoveTurns(c, t) <= 3
    decreases c
  {
    if c.In? && c.frame.sibling.Branch? && IsBlack(c.frame.sibling) && BlackNephews(c.frame) {
      RemoveTurnsAtMostThree(c.up, RemoveLift(c.frame, t));
    }
  }

  /** The rotations of a removal at the focus: none unless a black node left its place. */
  function RemoveAtTurns<N>(c: Ctx<N>, t: Tree<N>): nat
    requires t.Branch?
  {
    if Spliced(t).color.Black? then RemoveTurns(SplicedCtx(c, t), Remainder(Spliced(t))) else 0
  }

  /** Three is the least bound on the rotations of a removal from a legal tree. */
  lemma RemoveTurnsAreExact(k: nat)
    ensures (forall c: Ctx<int>, t: Tree<int> :: t.Branch? && Legal(Plug(c, t)) ==> RemoveAtTurns(c, t) <= k)
            <==> k >= 3
  {
    forall c: Ctx<int>, t: Tree<int> | t.Branch?
      ensures RemoveAtTurns(c, t) <= 3
    {
      RemoveTurnsAtMostThree(SplicedCtx(c, t), Remainder(Spliced(t)));
    }
    var near := Branch(Branch(Leaf, Item(3, 3), Red, Leaf), Item(4, 4), Black, Leaf);
    var sibling := Branch(near, Item(5, 5), Red, Branch(Leaf, Item(6, 6), Black, Leaf));
    var c, t := In(Frame(Item(2, 2), Black, Left, sibling), Top), Branch(Leaf, Item(1, 1), Black, Leaf);
    assert RedBlack(near) && RedBlack(sibling);
    assert Legal(Plug(c, t)) && RemoveAtTurns(c, t) == 3;
  }

  // ---------- order and node objects ----------

  lemma TurnKeepsOrder<N>(f: Frame<N>, up: Ctx<N>, e: Dir)
    requires f.sibling.Branch?
    ensures var c := RemoveTurn(f, up);
            Before(c, e) == Before(In(f, up), e) && After(c, e) == After(In(f, up), e)
  {
    var s, d := f.sibling, f.dir;
    var near, far := Walk(s.Child(d), e), Walk(s.Child(d.Flip()), e);
    WalkJoin(d, s.Child(d), s.item, s.color, s.Child(d.Flip()), e);
    assert s == Join(d, s.Child(d), s.item, s.color, s.Child(d.Flip()));
    Regrouped(Before(up, e), far, [s.item], near, [f.item]);
    Regrouped2([f.item], near, [s.item], far, After(up, e));
  }

  lemma Regrouped<T>(a: seq<T>, b: seq<T>, c: seq<T>, d: seq<T>, e: seq<T>)
    ensures a + (b + c) + (d + e) == a + ((b + c + d) + e)
  {
  }

  lemma Regrouped2<T>(a: seq<T>, b: seq<T>, c: seq<T>, d: seq<T>, e: seq<T>)
    ensures a + b + (c + d + e) == a + (b + c + d) + e
  {
  }

  lemma TurnKeepsIds<N>(f: Frame<N>, up: Ctx<N>)
    requires f.sibling.Branch?
    ensures var c := RemoveTurn(f, up);
            CtxIds(c) == CtxIds(In(f, up)) && (CtxDistinct(In(f, up)) ==> CtxDistinct(c))
  {
  }

  lemma LiftKeepsOrder<N>(f: Frame<N>, t: Tree<N>)
    ensures InOrder(RemoveLift(f, t)) == InOrder(Fill(f, t))
    ensures Ids(RemoveLift(f, t)) == Ids(Fill(f, t))
    ensures Distinct(Fill(f, t)) ==> Distinct(RemoveLift(f, t))
  {
    var red := f.(sibling := Recolor(f.sibling, Red));
    RecolorKeepsOrder(f.sibling, Red);
    WalkFill(f, t, Right);
    WalkFill(red, t, Right);
    FillDistinct(f, t);
    FillDistinct(red, t);
  }

  lemma StraightenKeepsOrder<N>(d: Dir, s: Tree<N>)
    requires s.Branch? && !(IsBlack(s.left) && IsBlack(s.right))
    ensures InOrder(Straighten(d, s)) == InOrder(s)
    ensures Ids(Straighten(d, s)) == Ids(s)
    ensures Distinct(s) ==> Distinct(Straighten(d, s))
  {
    if IsBlack(s.Child(d.Flip())) {
      var f := Frame(s.item, s.color, d, s.Child(d.Flip()));
      var red := f.(color := Red);
      var near := Recolor(s.Child(d), Black);
      assert s == Fill(f, s.Child(d));
      RecolorKeepsOrder(s.Child(d), Black);
      WalkFill(red, near, Right);
      WalkFill(f, s.Child(d), Right);
      FillDistinct(red, near);
      FillDistinct(f, s.Child(d));
      RotateKeepsOrder(Fill(red, near), d.Flip(), Right);
      RotateKeepsIds(Fill(red, near), d.Flip());
    }
  }

  lemma SettleKeepsOrder<N>(f: Frame<N>, s: Tree<N>, t: Tree<N>)
    requires s.Branch?
    ensures var whole := Fill(f.(sibling := s), t);
            && InOrder(Settle(f, s, t)) == InOrder(whole)
            && Ids(Settle(f, s, t)) == Ids(whole)
            && (Distinct(whole) ==> Distinct(Settle(f, s, t)))
  {
    var d := f.dir;
    var g := Frame(s.item, s.color, d, s.Child(d.Flip()));
    var g' := g.(color := f.color, sibling := Recolor(g.sibling, Black));
    assert s == Fill(g, s.Child(d));
    RecolorKeepsOrder(g.sibling, Black);
    WalkFill(g, s.Child(d), Right);
    WalkFill(g', s.Child(d), Right);
    FillDistinct(g, s.Child(d));
    FillDistinct(g', s.Child(d));
    var j := f.(color := Black, sibling := Fill(g', s.Child(d)));
    WalkFill(f.(sibling := s), t, Right);
    WalkFill(j, t, Right);
    FillDistinct(f.(sibling := s), t);
    FillDistinct(j, t);
    RotateKeepsOrder(Fill(j, t), d, Right);
    RotateKeepsIds(Fill(j, t), d);
  }

  lemma FinishKeepsOrder<N>(f: Frame<N>, t: Tree<N>)
    requires f.sibling.Branch? && !BlackNephews(f)
    ensures InOrder(RemoveFinish(f, t)) == InOrder(Fill(f, t))
    ensures Ids(RemoveFinish(f, t)) == Ids(Fill(f, t))
    ensures Distinct(Fill(f, t)) ==> Distinct(RemoveFinish(f, t))
  {
    var s := Straighten(f.dir, f.sibling);
    StraightenKeepsOrder(f.dir, f.sibling);
    SettleKeepsOrder(f, s, t);
    WalkFill(f, t, Right);
    WalkFill(f.(sibling := s), t, Right);
    FillDistinct(f, t);
    FillDistinct(f.(sibling := s), t);
  }

  /** Repair moves no node in the order and neither adds nor drops one. */
  lemma {:induction false} RemoveFixKeepsOrder<N>(c: Ctx<N>, t: Tree<N>)
    ensures InOrder(RemoveFix(c, t)) == Before(c, Right) + InOrder(t) + After(c, Right)
    decreases c
  {
    WalkPlug(c, t, Right);
    RecolorKeepsOrder(t, Black);
    WalkPlug(c, Recolor(t, Black), Right);
    if c.In? && IsBlack(t) && c.frame.sibling.Branch? {
      if IsRed(c.frame.sibling) {
        var c' := RemoveTurn(c.frame, c.up);
        TurnKeepsOrder(c.frame, c.up, Right);
        RoundKeepsOrder(c', t);
      } else {
        RoundKeepsOrder(c, t);
        if BlackNephews(c.frame) {
          WalkPlug(c.up, RemoveLift(c.frame, t), Right);
          RemoveFixKeepsOrder(c.up, RemoveLift(c.frame, t));
        }
      }
    }
  }

  lemma RoundKeepsOrder<N>(c: Ctx<N>, t: Tree<N>)
    requires c.In?
    ensures var w := Before(c, Right) + InOrder(t) + After(c, Right);
            && InOrder(Plug(c, t)) == w
            && InOrder(Plug(c.up, RemoveLift(c.frame, t))) == w
            && InOrder(Plug(c.up, Recolor(RemoveLift(c.frame, t), Black))) == w
            && (c.frame.sibling.Branch? && !BlackNephews(c.frame) ==>
                  InOrder(Plug(c.up, RemoveFinish(c.frame, t))) == w)
  {
    WalkPlug(c, t, Right);
    WalkPlug(c.up, Fill(c.frame, t), Right);
    LiftKeepsOrder(c.frame, t);
    RecolorKeepsOrder(RemoveLift(c.frame, t), Black);
    WalkPlug(c.up, RemoveLift(c.frame, t), Right);
    WalkPlug(c.up, Recolor(RemoveLift(c.frame, t), Black), Right);
    if c.frame.sibling.Branch? && !BlackNephews(c.frame) {
      FinishKeepsOrder(c.frame, t);
      WalkPlug(c.up, RemoveFinish(c.frame, t), Right);
    }
  }

  // ---------- red-black laws ----------

  /** The deficit: around the hole everything is sound for one black level more than the focus has. */
  predicate Short<N>(c: Ctx<N>, t: Tree<N>) {
    RedBlack(t) && Sound(c, BlackHeight(t) + 1)
  }

  /** The sibling of a short focus exists, and if it is red then both its children exist. */
  lemma SiblingExists<N>(c: Ctx<N>, t: Tree<N>)
    requires c.In? && Short(c, t)
    ensures var s := c.frame.sibling;
            s.Branch? && (s.color.Red? ==> s.left.Branch? && s.right.Branch?)
  {
  }

  lemma TurnIsSound<N>(f: Frame<N>, up: Ctx<N>, t: Tree<N>)
    requires IsRed(f.sibling) && Short(In(f, up), t)
    ensures var c := RemoveTurn(f, up);
            Short(c, t) && c.frame.sibling.Branch? && IsBlack(c.frame.sibling)
  {
  }

  lemma LiftIsSound<N>(c: Ctx<N>, t: Tree<N>)
    requires c.In? && IsBlack(t) && Short(c, t) && IsBlack(c.frame.sibling)
    requires c.frame.sibling.Branch? && BlackNephews(c.frame)
    ensures var r := RemoveLift(c.frame, t);
            if c.frame.color.Red? then
              RedBlack(Recolor(r, Black)) && Sound(c.up, BlackHeight(Recolor(r, Black)))
            else Short(c.up, r)
  {
    FillSound(c.frame.(color := Black, sibling := Recolor(c.frame.sibling, Red)), t);
  }

  lemma StraightenIsSound<N>(d: Dir, s: Tree<N>)
    requires s.Branch? && s.color.Black? && RedBlack(s) && !(IsBlack(s.left) && IsBlack(s.right))
    ensures var r := Straighten(d, s);
            && RedBlack(r.Child(d)) && RedBlack(r.Child(d.Flip())) && IsRed(r.Child(d.Flip()))
            && BlackHeight(r.Child(d)) == BlackHeight(r.Child(d.Flip())) == BlackHeight(s) - 1
  {
  }

  lemma SettleIsSound<N>(f: Frame<N>, s: Tree<N>, t: Tree<N>)
    requires s.Branch? && RedBlack(t) && IsBlack(t)
    requires RedBlack(s.Child(f.dir)) && RedBlack(s.Child(f.dir.Flip())) && IsRed(s.Child(f.dir.Flip()))
    requires BlackHeight(s.Child(f.dir)) == BlackHeight(s.Child(f.dir.Flip())) == BlackHeight(t)
    ensures var r := Settle(f, s, t);
            r.color == f.color && RedBlack(r) && BlackHeight(r) == BlackHeight(t) + 1 + Weight(f.color)
  {
    var d := f.dir;
    var low := Join(d, t, f.item, Black, s.Child(d));
    var far := Recolor(s.Child(d.Flip()), Black);
    assert RedBlack(low) && BlackHeight(low) == BlackHeight(t) + 1;
    assert RedBlack(far) && BlackHeight(far) == BlackHeight(t) + 1;
    assert Settle(f, s, t) == Join(d, low, s.item, f.color, far);
  }

  lemma FinishIsSound<N>(c: Ctx<N>, t: Tree<N>)
    requires c.In? && Short(c, t) && IsBlack(t) && IsBlack(c.frame.sibling)
    requires c.frame.sibling.Branch? && !BlackNephews(c.frame)
    ensures var r := RemoveFinish(c.frame, t);
            RedBlack(r) && Sound(c.up, BlackHeight(r)) && (IsRed(r) ==> TakesRed(c.up))
  {
    StraightenIsSound(c.frame.dir, c.frame.sibling);
    SettleIsSound(c.frame, Straighten(c.frame.dir, c.frame.sibling), t);
  }

  /** The loop invariant of the repair: a black focus is one black level short. */
  predicate Deficit<N>(c: Ctx<N>, t: Tree<N>) {
    IsBlack(t) ==> Short(c, t)
  }

  /** The context in which one round chooses between cases 2, 3 and 4: after case 1, if it applies. */
  function Turned<N>(c: Ctx<N>): Ctx<N> {
    if c.In? && IsRed(c.frame.sibling) then RemoveTurn(c.frame, c.up) else c
  }

  /** The rotation of case 1, if it applies. */
  function SiblingTurns<N>(c: Ctx<N>): nat { if c.In? && IsRed(c.frame.sibling) then 1 else 0 }

  /** One round below the root. The sibling exists and, once case 1 is done, is black. Two black
      nephews move the deficit up, except that a red parent ends the repair; a red nephew ends it
      with a legal tree. */
  lemma RoundKeepsDeficit<N>(c: Ctx<N>, t: Tree<N>)
    requires c.In? && IsBlack(t) && Short(c, t)
    ensures c.frame.sibling.Branch?
    ensures var c' := Turned(c);
            && c'.In? && Short(c', t) && c'.frame.sibling.Branch? && IsBlack(c'.frame.sibling)
            && if BlackNephews(c'.frame) then
                 var r := RemoveLift(c'.frame, t);
                 && Deficit(c'.up, r) && RemoveFix(c'.up, r) == RemoveFix(c, t) && (IsBlack(r) ==> c' == c)
                 && RemoveTurns(c, t) == SiblingTurns(c) + RemoveTurns(c'.up, r)
               else
                 && RemoveFix(c, t) == Plug(c'.up, RemoveFinish(c'.frame, t)) && Legal(RemoveFix(c, t))
                 && RemoveTurns(c, t) == SiblingTurns(c) + FinishTurns(c'.frame)
  {
    SiblingExists(c, t);
    if IsRed(c.frame.sibling) {
      TurnIsSound(c.frame, c.up, t);
    }
    var c' := Turned(c);
    if BlackNephews(c'.frame) {
      LiftIsSound(c', t);
    } else {
      FinishIsSound(c', t);
      PlugLegal(c'.up, RemoveFinish(c'.frame, t));
    }
  }

  /** Wherever the short focus hangs, repair makes a legal tree of it. */
  lemma {:induction false} RemoveFixIsLegal<N>(c: Ctx<N>, t: Tree<N>)
    requires Short(c, t)
    ensures Legal(RemoveFix(c, t))
    decreases c
  {
    if c.Top? || IsRed(t) {
      PlugLegal(c, Recolor(t, Black));
    } else {
      RoundKeepsDeficit(c, t);
      var c' := Turned(c);
      if BlackNephews(c'.frame) {
        var r := RemoveLift(c'.frame, t);
        if IsBlack(r) {
          RemoveFixIsLegal(c.up, r);
        } else {
          LiftIsSound(c', t);
          PlugLegal(c'.up, Recolor(r, Black));
        }
      }
    }
  }

  // ---------- taking a node out ----------

  /** The node that leaves its place: the focus itself, or its successor when it has two children. */
  function Spliced<N>(t: Tree<N>): (m: Tree<N>)
    requires t.Branch?
    ensures m.Branch? && (m.left.Leaf? || m.right.Leaf?)
  {
    if t.left.Leaf? || t.right.Leaf? then t else SpineEnd(t.right, Left)
  }

  /** What takes the place of the spliced node: its only child, or nothing. */
  function Remainder<N>(m: Tree<N>): Tree<N>
    requires m.Branch?
  {
    if m.left.Leaf? then m.right else m.left
  }

  /** The context of that place once the successor, if there is one, has taken over the focus's
      children and colour. */
  function SplicedCtx<N>(c: Ctx<N>, t: Tree<N>): Ctx<N>
    requires t.Branch?
  {
    if t.left.Leaf? || t.right.Leaf? then c
    else SpineCtx(t.right, Left, In(FrameOf(t, Right).(item := Spliced(t).item), c))
  }

  /** The whole tree without the node at the focus. */
  function RemoveAt<N>(c: Ctx<N>, t: Tree<N>): Tree<N>
    requires t.Branch?
  {
    var c', rest := SplicedCtx(c, t), Remainder(Spliced(t));
    if Spliced(t).color.Black? then RemoveFix(c', rest) else Plug(c', rest)
  }

  lemma SpliceIsSound<N>(c: Ctx<N>, m: Tree<N>)
    requires m.Branch? && (m.left.Leaf? || m.right.Leaf?) && Legal(Plug(c, m))
    ensures if m.color.Black? then Short(c, Remainder(m)) else Legal(Plug(c, Remainder(m)))
  {
    PlugLegal(c, m);
    PlugLegal(c, Remainder(m));
  }

  /** Putting the successor's item where the focus's item was changes no colour and no height. */
  lemma SuccessorIsSound<N>(c: Ctx<N>, t: Tree<N>)
    requires t.Branch? && Legal(Plug(c, t))
    ensures Legal(Plug(SplicedCtx(c, t), Spliced(t)))
  {
    if t.left.Branch? && t.right.Branch? {
      var f := FrameOf(t, Right);
      var up := In(f.(item := Spliced(t).item), c);
      PlugLegal(In(f, c), t.right);
      PlugLegal(up, t.right);
      SpineWalk(t.right, Left, up);
    }
  }

  /** The order of the tree before and after its spliced node is gone. */
  lemma SplicedOrder<N>(c: Ctx<N>, t: Tree<N>)
    requires t.Branch?
    ensures var c' := SplicedCtx(c, t);
            Before(c', Right) + InOrder(Remainder(Spliced(t))) + After(c', Right)
            == Before(c, Right) + InOrder(t.left) + InOrder(t.right) + After(c, Right)
  {
    if t.left.Branch? && t.right.Branch? {
      SuccessorOrder(c, t);
    } else if t.left.Leaf? {
      assert Before(c, Right) + [] == Before(c, Right);
    } else {
      assert Before(c, Right) + InOrder(t.left) + [] == Before(c, Right) + InOrder(t.left);
    }
  }

  lemma SuccessorOrder<N>(c: Ctx<N>, t: Tree<N>)
    requires t.Branch? && t.left.Branch? && t.right.Branch?
    ensures var m, c' := SpineEnd(t.right, Left), SplicedCtx(c, t);
            Before(c', Right) + InOrder(m.right) + After(c', Right)
            == Before(c, Right) + InOrder(t.left) + InOrder(t.right) + After(c, Right)
  {
    var m := SpineEnd(t.right, Left);
    var up := In(FrameOf(t, Right).(item := m.item), c);
    SpineWalk(t.right, Left, up);
    Gather(Before(c, Right), InOrder(t.left), [m.item], InOrder(m.right), After(SplicedCtx(c, t), Right));
    Chain(Before(c, Right), InOrder(t.left), InOrder(t.right), After(c, Right));
  }

  lemma Chain<T>(a: seq<T>, b: seq<T>, c: seq<T>, d: seq<T>)
    ensures a + b + (c + d) == a + b + c + d
  {
  }

  /** Removal at any node of any legal tree leaves a legal tree. */
  lemma RemoveAtIsLegal<N>(c: Ctx<N>, t: Tree<N>)
    requires t.Branch? && Legal(Plug(c, t))
    ensures Legal(RemoveAt(c, t))
  {
    var c', rest := SplicedCtx(c, t), Remainder(Spliced(t));
    SuccessorIsSound(c, t);
    SpliceIsSound(c', Spliced(t));
    if Spliced(t).color.Black? {
      RemoveFixIsLegal(c', rest);
    }
  }

  lemma Isolate<T>(b: seq<T>, l: seq<T>, x: seq<T>, r: seq<T>, a: seq<T>)
    ensures b + (l + x + r) + a == (b + l) + x + (r + a)
  {
  }

  lemma FocusOrder<N>(c: Ctx<N>, t: Tree<N>)
    requires t.Branch?
    ensures InOrder(Plug(c, t))
            == (Before(c, Right) + InOrder(t.left)) + [t.item] + (InOrder(t.right) + After(c, Right))
  {
    WalkPlug(c, t, Right);
    Isolate(Before(c, Right), InOrder(t.left), [t.item], InOrder(t.right), After(c, Right));
  }

  lemma RemoveAtOrder<N>(c: Ctx<N>, t: Tree<N>)
    requires t.Branch?
    ensures InOrder(RemoveAt(c, t)) == (Before(c, Right) + InOrder(t.left)) + (InOrder(t.right) + After(c, Right))
  {
    var c', rest := SplicedCtx(c, t), Remainder(Spliced(t));
    SplicedOrder(c, t);
    RemoveFixKeepsOrder(c', rest);
    WalkPlug(c', rest, Right);
    Chain(Before(c, Right), InOrder(t.left), InOrder(t.right), After(c, Right));
  }

  /** Removal is correct at every node of every legal tree: the result is legal and its order is the
      old one with exactly the focus's node left out. */
  lemma RemoveAtIsCorrect<N>(c: Ctx<N>, t: Tree<N>)
    requires t.Branch? && Legal(Plug(c, t))
    ensures Legal(RemoveAt(c, t))
    ensures InOrder(Plug(c, t))
            == (Before(c, Right) + InOrder(t.left)) + [t.item] + (InOrder(t.right) + After(c, Right))
    ensures InOrder(RemoveAt(c, t)) == (Before(c, Right) + InOrder(t.left)) + (InOrder(t.right) + After(c, Right))
  {
    RemoveAtIsLegal(c, t);
    FocusOrder(c, t);
    RemoveAtOrder(c, t);
  }

  /** The objects around the vacated place are those of the tree without the removed node. */
  lemma SplicedApart<N>(c: Ctx<N>, t: Tree<N>)
    requires t.Branch? && Apart(c, t)
    ensures var c', rest := SplicedCtx(c, t), Remainder(Spliced(t));
            Apart(c', rest) && CtxIds(c') + Ids(rest) == CtxIds(c) + Ids(t) - {t.item.id}
  {
    if t.left.Branch? && t.right.Branch? {
      var m, f := Spliced(t), FrameOf(t, Right);
      var seg := SpineCtx(t.right, Left, Top);
      SpineWalk(t.right, Left, Top);
      PlugIds(seg, m);
      SpineAppend(t.right, Left, Top, In(f.(item := m.item), c));
      AppendIds(seg, In(f.(item := m.item), c));
    }
  }

  /** What hangs in the focus's place once the node is unlinked and before colours are repaired. */
  function Unlinked<N>(t: Tree<N>): Tree<N>
    requires t.Branch?
  {
    var m := Spliced(t);
    if t.left.Leaf? || t.right.Leaf? then Remainder(m)
    else Fill(FrameOf(t, Right).(item := m.item), Plug(SpineCtx(t.right, Left, Top), Remainder(m)))
  }

  /** It is the vacated place's view of the tree, moved up to the focus's place. */
  lemma UnlinkedIsSpliced<N>(c: Ctx<N>, t: Tree<N>)
    requires t.Branch?
    ensures Plug(c, Unlinked(t)) == Plug(SplicedCtx(c, t), Remainder(Spliced(t)))
  {
    if t.left.Branch? && t.right.Branch? {
      var up := In(FrameOf(t, Right).(item := Spliced(t).item), c);
      SpineAppend(t.right, Left, Top, up);
      PlugAppend(SpineCtx(t.right, Left, Top), up, Remainder(Spliced(t)));
    }
  }

  lemma UnlinkedApart<N>(c: Ctx<N>, t: Tree<N>)
    requires t.Branch? && Apart(c, t)
    ensures Apart(c, Unlinked(t)) && Ids(Unlinked(t)) == Ids(t) - {t.item.id}
  {
    SplicedApart(c, t);
    UnlinkedIsSpliced(c, t);
    PlugIds(c, Unlinked(t));
    PlugIds(SplicedCtx(c, t), Remainder(Spliced(t)));
    var a, b := Ids(Unlinked(t)), Ids(t) - {t.item.id};
    assert CtxIds(c) + a == CtxIds(c) + b;
    assert CtxIds(c) !! a && CtxIds(c) !! b;
    assert forall n :: n in a ==> n in CtxIds(c) + b;
    assert forall n :: n in b ==> n in CtxIds(c) + a;
  }

  lemma {:induction false} SpineTurnsOneWay<N>(t: Tree<N>, d: Dir, up: Ctx<N>)
    requires t.Branch? && (up.In? ==> up.frame.dir == d)
    ensures var c := SpineCtx(t, d, up); c.In? ==> c.frame.dir == d
    decreases t
  {
    if t.Child(d).Branch? {
      SpineTurnsOneWay(t.Child(d), d, In(FrameOf(t, d), up));
    }
  }

  /** The node objects around a successor are where unlinking needs them to be. */
  lemma SuccessorIds<N>(t: Tree<N>, inner: Ctx<N>)
    requires Distinct(t) && t.Branch? && t.left.Branch? && t.right.Branch? && inner == SpineCtx(t.right, Left, Top)
    ensures var m := Spliced(t);
            && Plug(inner, m) == t.right && m.left.Leaf? && m.item.id in Ids(t.right)
            && Distinct(Plug(inner, m.right)) && m.item.id !in Ids(Plug(inner, m.right))
            && Ids(Plug(inner, m.right)) <= Ids(t.right) && Ids(m.right) <= Ids(t.right)
            && (inner.In? ==> inner.frame.item.id in Ids(t.right) && inner.frame.dir == Left)
  {
    var m := Spliced(t);
    SpineWalk(t.right, Left, Top);
    SpineTurnsOneWay(t.right, Left, Top);
    PlugIds(inner, m);
    PlugIds(inner, m.right);
  }

  /** What unlinking the node at the focus of a legal tree leaves to be repaired. */
  lemma UnlinkedFacts<N>(c: Ctx<N>, t: Tree<N>)
    requires t.Branch? && Apart(c, t) && Legal(Plug(c, t))
    ensures var c', rest := SplicedCtx(c, t), Remainder(Spliced(t));
            && Apart(c, Unlinked(t)) && Plug(c, Unlinked(t)) == Plug(c', rest)
            && CtxIds(c') + Ids(rest) == CtxIds(c) + Ids(t) - {t.item.id}
            && (Spliced(t).color.Black? ==> Short(c', rest))
  {
    UnlinkedApart(c, t);
    UnlinkedIsSpliced(c, t);
    SplicedApart(c, t);
    SuccessorIsSound(c, t);
    SpliceIsSound(SplicedCtx(c, t), Spliced(t));
  }
}
