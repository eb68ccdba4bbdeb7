/** A zipper splits a tree into a focus and the context around it. The context is the chain of
    ancestors of the focus, nearest first, each with the sibling subtree the chain leaves aside. */
module Zippers {
  import opened Trees

  datatype Frame<N> = Frame(item: Item<N>, color: Color, dir: Dir, sibling: Tree<N>)

  datatype Ctx<N> = Top | In(frame: Frame<N>, up: Ctx<N>)

  /** The frame's branch with `t` as its child in the frame's direction. */
  function Fill<N>(f: Frame<N>, t: Tree<N>): Tree<N> {
    Join(f.dir, t, f.item, f.color, f.sibling)
  }

  /** The whole tree: the context with `t` at its hole. */
  function Plug<N>(c: Ctx<N>, t: Tree<N>): Tree<N> {
    if c.Top? then t else Plug(c.up, Fill(c.frame, t))
  }

  /** The inner context `c` hung into the hole of the outer context `up`. */
  function Append<N>(c: Ctx<N>, up: Ctx<N>): Ctx<N> {
    if c.Top? then up else In(c.frame, Append(c.up, up))
  }

  function Depth<N>(c: Ctx<N>): nat {
    if c.Top? then 0 else 1 + Depth(c.up)
  }

  lemma {:induction false} PlugAppend<N>(c: Ctx<N>, up: Ctx<N>, t: Tree<N>)
    ensures Plug(Append(c, up), t) == Plug(up, Plug(c, t))
    ensures Depth(Append(c, up)) == Depth(c) + Depth(up)
  {
    if c.In? {
      PlugAppend(c.up, up, Fill(c.frame, t));
    }
  }

  lemma {:induction false} PlugBranch<N>(c: Ctx<N>, t: Tree<N>)
    ensures t.Branch? || c.In? ==> Plug(c, t).Branch?
    decreases c
  {
    if c.In? {
      PlugBranch(c.up, Fill(c.frame, t));
    }
  }

  // ---------- the path that describes a context ----------

  /** One entry of the ancestor stack: the ancestor and the direction taken from it. */
  datatype Entry<+N> = Entry(parent: N, dir: Dir)

  /** The ancestor stack that belongs to a context, from the root down to the focus. */
  function PathOf<N>(c: Ctx<N>): (p: seq<Entry<N>>)
    ensures |p| == Depth(c)
  {
    if c.Top? then [] else PathOf(c.up) + [Entry(c.frame.item.id, c.frame.dir)]
  }

  lemma {:induction false} PathAppend<N>(c: Ctx<N>, up: Ctx<N>)
    ensures PathOf(Append(c, up)) == PathOf(up) + PathOf(c)
  {
    if c.In? {
      PathAppend(c.up, up);
    }
  }

  /** Another item in one frame changes one entry of the stack. */
  lemma PathRelabel<N>(inner: Ctx<N>, f: Frame<N>, x: Item<N>, c: Ctx<N>)
    ensures var p := PathOf(Append(inner, In(f, c)));
            && |p| == Depth(inner) + 1 + Depth(c) && p[Depth(c)].dir == f.dir
            && PathOf(Append(inner, In(f.(item := x), c))) == p[Depth(c) := Entry(x.id, f.dir)]
  {
    PathAppend(inner, In(f, c));
    PathAppend(inner, In(f.(item := x), c));
    assert |PathOf(c)| == Depth(c);
  }

  // ---------- node objects ----------

  ghost function CtxIds<N>(c: Ctx<N>): set<N> {
    if c.Top? then {} else {c.frame.item.id} + Ids(c.frame.sibling) + CtxIds(c.up)
  }

  ghost predicate CtxDistinct<N>(c: Ctx<N>) {
    c.In? ==>
      && CtxDistinct(c.up) && Distinct(c.frame.sibling)
      && c.frame.item.id !in Ids(c.frame.sibling)
      && c.frame.item.id !in CtxIds(c.up)
      && Ids(c.frame.sibling) !! CtxIds(c.up)
  }

  /** Context and focus share no node object and repeat none. */
  ghost predicate Apart<N>(c: Ctx<N>, t: Tree<N>) {
    CtxDistinct(c) && Distinct(t) && CtxIds(c) !! Ids(t)
  }

  lemma {:induction false} PlugIds<N>(c: Ctx<N>, t: Tree<N>)
    ensures Ids(Plug(c, t)) == CtxIds(c) + Ids(t)
    ensures Distinct(Plug(c, t)) <==> Apart(c, t)
  {
    if c.In? {
      PlugIds(c.up, Fill(c.frame, t));
      FillApart(c.frame, c.up, t);
    }
  }

  /** Moving the nearest frame between context and focus changes neither node objects nor distinctness. */
  lemma FillApart<N>(f: Frame<N>, up: Ctx<N>, t: Tree<N>)
    ensures Ids(Fill(f, t)) == {f.item.id} + Ids(f.sibling) + Ids(t)
    ensures Apart(up, Fill(f, t)) <==> Apart(In(f, up), t)
  {
    FillDistinct(f, t);
  }

  lemma FillDistinct<N>(f: Frame<N>, t: Tree<N>)
    ensures Distinct(Fill(f, t)) <==>
              && Distinct(t) && Distinct(f.sibling) && Ids(t) !! Ids(f.sibling)
              && f.item.id !in Ids(t) && f.item.id !in Ids(f.sibling)
  {
  }

  lemma {:induction false} AppendIds<N>(c: Ctx<N>, up: Ctx<N>)
    ensures CtxIds(Append(c, up)) == CtxIds(c) + CtxIds(up)
    ensures CtxDistinct(Append(c, up)) <==> CtxDistinct(c) && CtxDistinct(up) && CtxIds(c) !! CtxIds(up)
  {
    if c.In? {
      AppendIds(c.up, up);
    }
  }

  // ---------- order ----------

  /** What a walk towards `d` meets before the focus. */
  function Before<N>(c: Ctx<N>, d: Dir): seq<Item<N>> {
    if c.Top? then []
    else if c.frame.dir == d then Before(c.up, d) + (Walk(c.frame.sibling, d) + [c.frame.item])
    else Before(c.up, d)
  }

  /** What a walk towards `d` meets after the focus. */
  function After<N>(c: Ctx<N>, d: Dir): seq<Item<N>> {
    if c.Top? then []
    else if c.frame.dir == d then After(c.up, d)
    else [c.frame.item] + Walk(c.frame.sibling, d) + After(c.up, d)
  }

  lemma WalkFill<N>(f: Frame<N>, t: Tree<N>, d: Dir)
    ensures Walk(Fill(f, t), d)
         == if f.dir == d then Walk(f.sibling, d) + [f.item] + Walk(t, d)
            else Walk(t, d) + [f.item] + Walk(f.sibling, d)
  {
    WalkJoin(f.dir, t, f.item, f.color, f.sibling, d);
  }

  lemma Gather<T>(a: seq<T>, b: seq<T>, x: seq<T>, c: seq<T>, d: seq<T>)
    ensures a + (b + x + c) + d == (a + (b + x)) + c + d
    ensures a + (b + x + c) + d == a + b + (x + c + d)
  {
  }

  /** The walk of the whole tree is the walk of the focus between the context's two halves. */
  lemma {:induction false} WalkPlug<N>(c: Ctx<N>, t: Tree<N>, d: Dir)
    ensures Walk(Plug(c, t), d) == Before(c, d) + Walk(t, d) + After(c, d)
  {
    if c.In? {
      var f, up := c.frame, c.up;
      WalkPlug(up, Fill(f, t), d);
      WalkFill(f, t, d);
      if f.dir == d {
        Gather(Before(up, d), Walk(f.sibling, d), [f.item], Walk(t, d), After(up, d));
      } else {
        Gather(Before(up, d), Walk(t, d), [f.item], Walk(f.sibling, d), After(up, d));
      }
    }
  }

  // ---------- red-black laws ----------

  /** The context makes a legal tree around any focus of black height `h` that is black or hangs
      below a black frame. */
  predicate Sound<N>(c: Ctx<N>, h: nat)
    decreases c
  {
    c.In? ==>
      var f := c.frame;
      && RedBlack(f.sibling) && BlackHeight(f.sibling) == h
      && (f.color.Red? ==> IsBlack(f.sibling) && c.up.In? && c.up.frame.color.Black?)
      && Sound(c.up, h + Weight(f.color))
  }

  /** May the hole of this context take a red focus? */
  predicate TakesRed<N>(c: Ctx<N>) { c.In? && c.frame.color.Black? }

  lemma FillSound<N>(f: Frame<N>, t: Tree<N>)
    ensures RedBlack(Fill(f, t)) <==>
              && RedBlack(t) && RedBlack(f.sibling) && BlackHeight(t) == BlackHeight(f.sibling)
              && (f.color.Red? ==> IsBlack(t) && IsBlack(f.sibling))
    ensures RedBlack(Fill(f, t)) ==> BlackHeight(Fill(f, t)) == BlackHeight(t) + Weight(f.color)
  {
  }

  /** A tree is legal exactly when its context is sound for its focus. */
  lemma {:induction false} PlugLegal<N>(c: Ctx<N>, t: Tree<N>)
    ensures Legal(Plug(c, t)) <==> RedBlack(t) && Sound(c, BlackHeight(t)) && (IsBlack(t) || TakesRed(c))
    decreases c
  {
    if c.In? {
      FillSound(c.frame, t);
      PlugLegal(c.up, Fill(c.frame, t));
    }
  }

  // ---------- height ----------

  /** The greatest depth below the root that a sibling subtree of the context reaches. */
  function Reach<N>(c: Ctx<N>): nat {
    if c.Top? then 0 else Max(Depth(c) + Height(c.frame.sibling), Reach(c.up))
  }

  lemma {:induction false} PlugHeight<N>(c: Ctx<N>, t: Tree<N>)
    ensures Height(Plug(c, t)) == Max(Depth(c) + Height(t), Reach(c))
    decreases c
  {
    if c.In? {
      PlugHeight(c.up, Fill(c.frame, t));
    }
  }
}
