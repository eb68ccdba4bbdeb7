/** No tree operation looks at the identity of a node: each commutes with renaming the nodes. This is
    what lets one run on plain numbers describe the runs of both implementations. */
module Renaming {
  import opened Trees
  import opened Zippers
  import opened IterSpec
  import opened InsertSpec
  import opened RemoveSpec
  import opened SortedItems
  import opened SearchSpec
  import opened PathCapacity

  function RenameItem<M, N>(x: Item<M>, f: M -> N): Item<N> { Item(f(x.id), x.key) }

  function Rename<M, N>(t: Tree<M>, f: M -> N): (r: Tree<N>)
    ensures r.Leaf? <==> t.Leaf?
    ensures t.Branch? ==> r.color == t.color && r.item.key == t.item.key
  {
    if t.Leaf? then Leaf else Branch(Rename(t.left, f), RenameItem(t.item, f), t.color, Rename(t.right, f))
  }

  function RenameFrame<M, N>(g: Frame<M>, f: M -> N): Frame<N> {
    Frame(RenameItem(g.item, f), g.color, g.dir, Rename(g.sibling, f))
  }

  function RenameCtx<M, N>(c: Ctx<M>, f: M -> N): Ctx<N> {
    if c.Top? then Top else In(RenameFrame(c.frame, f), RenameCtx(c.up, f))
  }

  lemma {:induction false} RenamePlug<M, N>(c: Ctx<M>, t: Tree<M>, f: M -> N)
    ensures Rename(Plug(c, t), f) == Plug(RenameCtx(c, f), Rename(t, f))
    decreases c
  {
    if c.In? {
      RenamePlug(c.up, Fill(c.frame, t), f);
    }
  }

  lemma {:induction false} RenameSize<M, N>(t: Tree<M>, f: M -> N)
    ensures Size(Rename(t, f)) == Size(t)
  {
    if t.Branch? {
      RenameSize(t.left, f);
      RenameSize(t.right, f);
    }
  }

  lemma {:induction false} RenameInOrder<M, N>(t: Tree<M>, f: M -> N)
    ensures |InOrder(Rename(t, f))| == |InOrder(t)|
    ensures forall i :: 0 <= i < |InOrder(t)| ==> InOrder(Rename(t, f))[i] == RenameItem(InOrder(t)[i], f)
  {
    if t.Branch? {
      RenameInOrder(t.left, f);
      RenameInOrder(t.right, f);
      assert InOrder(t) == InOrder(t.left) + [t.item] + InOrder(t.right);
      var l, r := InOrder(Rename(t.left, f)), InOrder(Rename(t.right, f));
      assert InOrder(Rename(t, f)) == l + [RenameItem(t.item, f)] + r;
    }
  }

  /** The renamed tree stands for the map with renamed nodes. */
  lemma RenameContents<M, N>(t: Tree<M>, f: M -> N, k: int)
    requires Sorted(InOrder(t)) && Sorted(InOrder(Rename(t, f)))
    ensures var m, m' := Contents(InOrder(t)), Contents(InOrder(Rename(t, f)));
            (k in m' <==> k in m) && (k in m ==> m'[k] == f(m[k]))
  {
    var s, s' := InOrder(t), InOrder(Rename(t, f));
    RenameInOrder(t, f);
    if k in Contents(s) {
      var i := ContentsIndex(s, k);
      ContentsAt(s', i);
    }
    if k in Contents(s') {
      var i := ContentsIndex(s', k);
      ContentsAt(s, i);
    }
  }

  lemma RenameRotate<M, N>(t: Tree<M>, d: Dir, f: M -> N)
    requires t.Branch? && t.Child(d.Flip()).Branch?
    ensures Rename(t, f).Child(d.Flip()).Branch?
    ensures Rename(Rotate(t, d), f) == Rotate(Rename(t, f), d)
  {
  }

  lemma RenameTurn<M, N>(g: Frame<M>, p: Frame<M>, t: Tree<M>, f: M -> N)
    requires t.Branch?
    ensures Rename(InsertTurn(g, p, t), f) == InsertTurn(RenameFrame(g, f), RenameFrame(p, f), Rename(t, f))
  {
    var s := Fill(p, t);
    if p.dir != g.dir {
      RenameRotate(s, g.dir, f);
      s := Rotate(s, g.dir);
    }
    RenameRotate(Join(g.dir, Recolor(s, Black), g.item, Red, g.sibling), g.dir.Flip(), f);
  }

  lemma {:induction false} RenameInsertFix<M, N>(c: Ctx<M>, t: Tree<M>, f: M -> N)
    requires t.Branch?
    ensures Rename(InsertFix(c, t), f) == InsertFix(RenameCtx(c, f), Rename(t, f))
    decreases c
  {
    RenamePlug(c, t, f);
    if !(c.Top? || c.frame.color.Black? || c.up.Top?) {
      var p, g, up := c.frame, c.up.frame, c.up.up;
      if IsRed(g.sibling) {
        RenameInsertFix(up, InsertLift(g, p, t), f);
      } else {
        RenameTurn(g, p, t, f);
        RenamePlug(up, InsertTurn(g, p, t), f);
      }
    }
  }

  lemma {:induction false} RenameInsertTurns<M, N>(c: Ctx<M>, t: Tree<M>, f: M -> N)
    requires t.Branch?
    ensures InsertTurns(RenameCtx(c, f), Rename(t, f)) == InsertTurns(c, t)
    decreases c
  {
    if !(c.Top? || c.frame.color.Black? || c.up.Top?) && IsRed(c.up.frame.sibling) {
      RenameInsertTurns(c.up.up, InsertLift(c.up.frame, c.frame, t), f);
    }
  }

  lemma RenameFinish<M, N>(g: Frame<M>, t: Tree<M>, f: M -> N)
    requires g.sibling.Branch? && !BlackNephews(g)
    ensures Rename(RemoveFinish(g, t), f) == RemoveFinish(RenameFrame(g, f), Rename(t, f))
  {
    RenameStraighten(g.dir, g.sibling, f);
    RenameSettle(g, Straighten(g.dir, g.sibling), t, f);
  }

  lemma RenameStraighten<M, N>(d: Dir, s: Tree<M>, f: M -> N)
    requires s.Branch? && !(IsBlack(s.left) && IsBlack(s.right))
    ensures Rename(Straighten(d, s), f) == Straighten(d, Rename(s, f))
  {
    if IsBlack(s.Child(d.Flip())) {
      RenameRotate(Join(d, Recolor(s.Child(d), Black), s.item, Red, s.Child(d.Flip())), d.Flip(), f);
    }
  }

  lemma RenameSettle<M, N>(g: Frame<M>, s: Tree<M>, t: Tree<M>, f: M -> N)
    requires s.Branch?
    ensures Rename(Settle(g, s, t), f) == Settle(RenameFrame(g, f), Rename(s, f), Rename(t, f))
  {
    var d := g.dir;
    var far := Join(d, s.Child(d), s.item, g.color, Recolor(s.Child(d.Flip()), Black));
    RenameRotate(Join(d, t, g.item, Black, far), d, f);
  }

  /** The second half of a round, at a sibling that exists. */
  lemma RenameRound<M, N>(c: Ctx<M>, t: Tree<M>, f: M -> N)
    requires c.In? && c.frame.sibling.Branch?
    ensures var c1, t1 := RenameCtx(c, f), Rename(t, f);
            && c1.In? && c1.frame.sibling.Branch? && BlackNephews(c1.frame) == BlackNephews(c.frame)
            && Rename(RemoveLift(c.frame, t), f) == RemoveLift(c1.frame, t1)
            && Rename(Plug(c.up, Recolor(RemoveLift(c.frame, t), Black)), f)
               == Plug(c1.up, Recolor(RemoveLift(c1.frame, t1), Black))
            && (!BlackNephews(c.frame) ==>
                  Rename(Plug(c.up, RemoveFinish(c.frame, t)), f) == Plug(c1.up, RemoveFinish(c1.frame, t1)))
  {
    RenamePlug(c.up, Recolor(RemoveLift(c.frame, t), Black), f);
    if !BlackNephews(c.frame) {
      RenameFinish(c.frame, t, f);
      RenamePlug(c.up, RemoveFinish(c.frame, t), f);
    }
  }

  lemma {:induction false} RenameRemoveFix<M, N>(c: Ctx<M>, t: Tree<M>, f: M -> N)
    ensures Rename(RemoveFix(c, t), f) == RemoveFix(RenameCtx(c, f), Rename(t, f))
    decreases c
  {
    RenamePlug(c, Recolor(t, Black), f);
    RenamePlug(c, t, f);
    if c.In? && IsBlack(t) && c.frame.sibling.Branch? {
      var c' := Turned(c);
      assert RenameCtx(c', f) == Turned(RenameCtx(c, f));
      RenamePlug(c', t, f);
      if c'.frame.sibling.Branch? {
        RenameRound(c', t, f);
        if BlackNephews(c'.frame) && c' == c {
          RenameRemoveFix(c.up, RemoveLift(c.frame, t), f);
        }
      }
    }
  }

  lemma {:induction false} RenameRemoveTurns<M, N>(c: Ctx<M>, t: Tree<M>, f: M -> N)
    ensures RemoveTurns(RenameCtx(c, f), Rename(t, f)) == RemoveTurns(c, t)
    decreases c
  {
    if c.In? && IsBlack(t) && c.frame.sibling.Branch? {
      assert RenameCtx(Turned(c), f) == Turned(RenameCtx(c, f));
      if IsBlack(c.frame.sibling) && BlackNephews(c.frame) {
        var r := RemoveLift(c.frame, t);
        assert Rename(r, f) == RemoveLift(RenameFrame(c.frame, f), Rename(t, f));
        RenameRemoveTurns(c.up, r, f);
      }
    }
  }

  lemma {:induction false} RenameSpine<M, N>(t: Tree<M>, d: Dir, up: Ctx<M>, f: M -> N)
    requires t.Branch?
    ensures Rename(SpineEnd(t, d), f) == SpineEnd(Rename(t, f), d)
    ensures RenameCtx(SpineCtx(t, d, up), f) == SpineCtx(Rename(t, f), d, RenameCtx(up, f))
    decreases t
  {
    assert Rename(t, f).Child(d) == Rename(t.Child(d), f);
    if t.Child(d).Branch? {
      RenameSpine(t.Child(d), d, In(FrameOf(t, d), up), f);
    }
  }

  lemma RenameRemoveAt<M, N>(c: Ctx<M>, t: Tree<M>, f: M -> N)
    requires t.Branch?
    ensures Rename(RemoveAt(c, t), f) == RemoveAt(RenameCtx(c, f), Rename(t, f))
  {
    if t.left.Branch? && t.right.Branch? {
      RenameSpine(t.right, Left, In(FrameOf(t, Right).(item := Spliced(t).item), c), f);
    }
    RenameRemoveFix(SplicedCtx(c, t), Remainder(Spliced(t)), f);
    RenamePlug(SplicedCtx(c, t), Remainder(Spliced(t)), f);
  }

  lemma {:induction false} RenameSeek<M, N>(t: Tree<M>, k: int, up: Ctx<M>, f: M -> N)
    ensures var p, q := Seek(t, k, up), Seek(Rename(t, f), k, RenameCtx(up, f));
            q.ctx == RenameCtx(p.ctx, f) && q.focus == Rename(p.focus, f)
    decreases t
  {
    if t.Branch? && t.item.key != k {
      var d := Toward(k, t.item.key);
      assert Rename(t, f).Child(d) == Rename(t.Child(d), f);
      RenameSeek(t.Child(d), k, In(FrameOf(t, d), up), f);
    }
  }

  // ---------- calls and runs ----------

  function RenameOption<M, N>(o: Option<M>, f: M -> N): Option<N> {
    if o.None? then None else Some(f(o.value))
  }

  function RenameCall<M, N>(call: Call<M>, f: M -> N): Call<N> {
    match call
    case Insert(x) => Insert(RenameItem(x, f))
    case Find(k) => Find(k)
    case Remove(k) => Remove(k)
  }

  /** A call on the renamed tree gives the renamed tree and the renamed answer. */
  lemma RenameApply<M, N>(t: Tree<M>, call: Call<M>, f: M -> N)
    ensures var (t', r) := Apply(t, call);
            Apply(Rename(t, f), RenameCall(call, f)) == (Rename(t', f), RenameOption(r, f))
  {
    var k := match call case Insert(x) => x.key case Find(k) => k case Remove(k) => k;
    var p := Seek(t, k, Top);
    RenameSeek(t, k, Top, f);
    match call
    case Insert(x) =>
      if p.focus.Leaf? {
        RenameInsertFix(p.ctx, Single(x), f);
      }
    case Find(_) =>
    case Remove(_) =>
      if p.focus.Branch? {
        RenameRemoveAt(p.ctx, p.focus, f);
      }
  }

  lemma RenameRemoveAtTurns<M, N>(c: Ctx<M>, t: Tree<M>, f: M -> N)
    requires t.Branch?
    ensures RemoveAtTurns(RenameCtx(c, f), Rename(t, f)) == RemoveAtTurns(c, t)
  {
    if t.left.Branch? && t.right.Branch? {
      RenameSpine(t.right, Left, In(FrameOf(t, Right).(item := Spliced(t).item), c), f);
    }
    RenameRemoveTurns(SplicedCtx(c, t), Remainder(Spliced(t)), f);
  }

  /** A call costs as many rotations on the renamed tree. */
  lemma RenameCallTurns<M, N>(t: Tree<M>, call: Call<M>, f: M -> N)
    ensures CallTurns(Rename(t, f), RenameCall(call, f)) == CallTurns(t, call)
  {
    match call
    case Insert(x) =>
      RenameSeek(t, x.key, Top, f);
      RenameInsertTurns(Seek(t, x.key, Top).ctx, Single(x), f);
    case Find(_) =>
    case Remove(k) =>
      var p := Seek(t, k, Top);
      RenameSeek(t, k, Top, f);
      if p.focus.Branch? {
        RenameRemoveAtTurns(p.ctx, p.focus, f);
      }
  }
}
