/** Moving a zipper through a tree: descending along one direction and stepping to the neighbour in
    the order, as `rb_iter` and `rb_iter_next` of both implementations do. */
module IterSpec {
  import opened Trees
  import opened Zippers

  /** The frame left behind when a descent leaves `t` in direction `d`. */
  function FrameOf<N>(t: Tree<N>, d: Dir): (f: Frame<N>)
    requires t.Branch?
    ensures Fill(f, t.Child(d)) == t
  {
    Frame(t.item, t.color, d, t.Child(d.Flip()))
  }

  /** The last branch of a descent from `t` that always takes direction `d`. */
  function SpineEnd<N>(t: Tree<N>, d: Dir): (m: Tree<N>)
    requires t.Branch?
    ensures m.Branch? && m.Child(d).Leaf?
  {
    if t.Child(d).Leaf? then t else SpineEnd(t.Child(d), d)
  }

  /** The context of that branch, when the context of `t` is `up`. */
  function SpineCtx<N>(t: Tree<N>, d: Dir, up: Ctx<N>): Ctx<N>
    requires t.Branch?
    decreases t
  {
    if t.Child(d).Leaf? then up else SpineCtx(t.Child(d), d, In(FrameOf(t, d), up))
  }

  /** A descent stays in the tree, and everything it passes comes after its end. */
  lemma {:induction false} SpineWalk<N>(t: Tree<N>, d: Dir, up: Ctx<N>)
    requires t.Branch?
    ensures var m, c := SpineEnd(t, d), SpineCtx(t, d, up);
            && Plug(c, m) == Plug(up, t)
            && Before(c, d.Flip()) == Before(up, d.Flip())
            && [m.item] + Walk(m.Child(d.Flip()), d.Flip()) + After(c, d.Flip())
               == Walk(t, d.Flip()) + After(up, d.Flip())
    decreases t
  {
    var e := d.Flip();
    WalkFill(FrameOf(t, d), t.Child(d), e);
    if t.Child(d).Branch? {
      SpineWalk(t.Child(d), d, In(FrameOf(t, d), up));
      Group(Walk(t.Child(d), e), t.item, Walk(t.Child(e), e), After(up, e));
    } else {
      assert [] + [t.item] == [t.item];
    }
  }

  lemma Group<T>(a: seq<T>, x: T, b: seq<T>, c: seq<T>)
    ensures a + ([x] + b + c) == (a + [x] + b) + c
  {
  }

  lemma {:induction false} SpineAppend<N>(t: Tree<N>, d: Dir, inner: Ctx<N>, up: Ctx<N>)
    requires t.Branch?
    ensures SpineCtx(t, d, Append(inner, up)) == Append(SpineCtx(t, d, inner), up)
    decreases t
  {
    if t.Child(d).Branch? {
      SpineAppend(t.Child(d), d, In(FrameOf(t, d), inner), up);
    }
  }

  // ---------- stepping to the neighbour ----------

  /** A zipper, or nothing past the end of the order. */
  datatype Place<N> = Nowhere | At(ctx: Ctx<N>, focus: Tree<N>)

  /** The nearest ancestor that the walk towards `d` meets after the subtree `t`. */
  function Ascend<N>(c: Ctx<N>, t: Tree<N>, d: Dir): Place<N>
    decreases c
  {
    if c.Top? then Nowhere
    else if c.frame.dir == d.Flip() then At(c.up, Fill(c.frame, t))
    else Ascend(c.up, Fill(c.frame, t), d)
  }

  /** The next place towards `d`. */
  function Step<N>(c: Ctx<N>, t: Tree<N>, d: Dir): Place<N>
    requires t.Branch?
  {
    if t.Child(d).Branch? then
      At(SpineCtx(t.Child(d), d.Flip(), In(FrameOf(t, d), c)), SpineEnd(t.Child(d), d.Flip()))
    else
      Ascend(c, t, d)
  }

  /** The first place of a walk towards `d.Flip()`: the end of the order in direction `d`. */
  function EndOf<N>(t: Tree<N>, d: Dir): Place<N> {
    if t.Leaf? then Nowhere else At(SpineCtx(t, d, Top), SpineEnd(t, d))
  }

  /** The number of items a walk towards `d` meets before the focus's own item. */
  function Rank<N>(c: Ctx<N>, t: Tree<N>, d: Dir): nat
    requires t.Branch?
  {
    |Before(c, d)| + |Walk(t.Child(d.Flip()), d)|
  }

  /** `p` is the place of the item number `i` on the walk of `whole` towards `d`, or nowhere if there is none. */
  ghost predicate PlaceOf<N>(p: Place<N>, whole: Tree<N>, d: Dir, i: int) {
    if 0 <= i < |Walk(whole, d)| then
      && p.At? && p.focus.Branch? && Plug(p.ctx, p.focus) == whole
      && Rank(p.ctx, p.focus, d) == i && p.focus.item == Walk(whole, d)[i]
    else p.Nowhere?
  }

  lemma Middle<T>(b: seq<T>, l: seq<T>, x: T, r: seq<T>, a: seq<T>)
    ensures var w := b + (l + [x] + r) + a;
            |w| == |b| + |l| + 1 + |r| + |a| && w[|b| + |l|] == x
  {
  }

  /** Every zipper with a branch at its focus is the place of its rank, seen from either direction. */
  lemma RankIsPlace<N>(c: Ctx<N>, t: Tree<N>, d: Dir)
    requires t.Branch?
    ensures PlaceOf(At(c, t), Plug(c, t), d, Rank(c, t, d))
    ensures Rank(c, t, d) + Rank(c, t, d.Flip()) == |Walk(Plug(c, t), d)| - 1
  {
    WalkPlug(c, t, d);
    Middle(Before(c, d), Walk(t.Child(d.Flip()), d), t.item, Walk(t.Child(d), d), After(c, d));
    FlipLength(c, t, d);
    WalkLength(t.Child(d), d);
  }

  lemma {:induction false} WalkLength<N>(t: Tree<N>, d: Dir)
    ensures |Walk(t, d)| == |Walk(t, d.Flip())|
  {
    if t.Branch? {
      WalkLength(t.left, d);
      WalkLength(t.right, d);
    }
  }

  lemma {:induction false} FlipLength<N>(c: Ctx<N>, t: Tree<N>, d: Dir)
    ensures |Before(c, d.Flip())| == |After(c, d)|
  {
    if c.In? {
      FlipLength(c.up, t, d);
      WalkLength(c.frame.sibling, d);
    }
  }

  /** The descent from the root towards `d` ends at the first item of the walk away from `d`. */
  lemma EndIsFirst<N>(t: Tree<N>, d: Dir)
    ensures PlaceOf(EndOf(t, d), t, d.Flip(), 0)
  {
    if t.Branch? {
      SpineWalk(t, d, Top);
      RankIsPlace(SpineCtx(t, d, Top), SpineEnd(t, d), d.Flip());
      assert Walk(SpineEnd(t, d).Child(d), d.Flip()) == [];
    }
  }

  lemma {:induction false} AscendIsNext<N>(c: Ctx<N>, t: Tree<N>, d: Dir)
    ensures PlaceOf(Ascend(c, t, d), Plug(c, t), d, |Before(c, d)| + |Walk(t, d)|)
    decreases c
  {
    if c.Top? {
    } else {
      WalkFill(c.frame, t, d);
      if c.frame.dir == d {
        AscendIsNext(c.up, Fill(c.frame, t), d);
      } else {
        RankIsPlace(c.up, Fill(c.frame, t), d);
      }
    }
  }

  /** The first item of the subtree on the far side of the focus follows the focus's own. */
  lemma DescendIsNext<N>(c: Ctx<N>, t: Tree<N>, d: Dir)
    requires t.Branch? && t.Child(d).Branch?
    ensures PlaceOf(Step(c, t, d), Plug(c, t), d, Rank(c, t, d) + 1)
  {
    var up, s, e := In(FrameOf(t, d), c), t.Child(d), d.Flip();
    var c', m := SpineCtx(s, e, up), SpineEnd(s, e);
    SpineWalk(s, e, up);
    RankIsPlace(c', m, d);
    assert Walk(m.Child(e), d) == [];
    assert Before(c', d) == Before(up, d);
  }

  /** One step moves the rank up by exactly one, and goes nowhere exactly from the last item. */
  lemma StepIsNext<N>(c: Ctx<N>, t: Tree<N>, d: Dir)
    requires t.Branch?
    ensures PlaceOf(Step(c, t, d), Plug(c, t), d, Rank(c, t, d) + 1)
  {
    if t.Child(d).Branch? {
      DescendIsNext(c, t, d);
    } else {
      assert |Walk(t, d)| == |Walk(t.Child(d.Flip()), d)| + 1;
      AscendIsNext(c, t, d);
    }
  }

  /** The place of rank `i` on the walk of `t` towards `d`, looked up from the root downwards. */
  function Locate<N>(t: Tree<N>, i: int, d: Dir, up: Ctx<N>): Place<N>
    requires 0 <= i < |Walk(t, d)|
    decreases t
  {
    var k := |Walk(t.Child(d.Flip()), d)|;
    if i < k then Locate(t.Child(d.Flip()), i, d, In(FrameOf(t, d.Flip()), up))
    else if i == k then At(up, t)
    else Locate(t.Child(d), i - k - 1, d, In(FrameOf(t, d), up))
  }

  lemma {:induction false} LocateInside<N>(c: Ctx<N>, t: Tree<N>, i: int, d: Dir)
    requires 0 <= i < |Walk(t, d)|
    ensures |Before(c, d)| + i < |Walk(Plug(c, t), d)|
    ensures Locate(Plug(c, t), |Before(c, d)| + i, d, Top) == Locate(t, i, d, c)
    decreases c
  {
    WalkPlug(c, t, d);
    if c.In? {
      var f := c.frame;
      WalkFill(f, t, d);
      LocateInside(c.up, Fill(f, t), i + if f.dir == d then |Walk(f.sibling, d)| + 1 else 0, d);
    }
  }

  /** A tree has only one place of each rank. */
  lemma PlaceIsUnique<N>(c: Ctx<N>, t: Tree<N>, c': Ctx<N>, t': Tree<N>, d: Dir)
    requires t.Branch? && t'.Branch? && Plug(c, t) == Plug(c', t') && Rank(c, t, d) == Rank(c', t', d)
    ensures c == c' && t == t'
  {
    LocateInside(c, t, |Walk(t.Child(d.Flip()), d)|, d);
    LocateInside(c', t', |Walk(t'.Child(d.Flip()), d)|, d);
  }

  /** A step that succeeds is undone, place and path alike, by the step in the other direction. */
  lemma StepBack<N>(c: Ctx<N>, t: Tree<N>, d: Dir)
    requires t.Branch? && Step(c, t, d).At?
    ensures var p := Step(c, t, d);
            p.focus.Branch? && Step(p.ctx, p.focus, d.Flip()) == At(c, t)
  {
    var p := Step(c, t, d);
    StepIsNext(c, t, d);
    RankIsPlace(c, t, d);
    var q := Step(p.ctx, p.focus, d.Flip());
    StepIsNext(p.ctx, p.focus, d.Flip());
    RankIsPlace(p.ctx, p.focus, d);
    WalkLength(Plug(c, t), d);
    PlaceIsUnique(c, t, q.ctx, q.focus, d.Flip());
  }

  // ---------- what a client has seen ----------

  /** The nodes seen are those of the items from number `from` on, in the order of the walk. */
  ghost predicate Seen<N>(visited: seq<N>, items: seq<Item<N>>, from: nat) {
    from + |visited| <= |items| && forall k :: 0 <= k < |visited| ==> visited[k] == items[from + k].id
  }

  /** The nodes seen are exactly those of the items from number `from` to the last. */
  ghost predicate SeenToEnd<N>(visited: seq<N>, items: seq<Item<N>>, from: nat) {
    Seen(visited, items, from) && from + |visited| == |items|
  }

  lemma SeeOneMore<N>(visited: seq<N>, items: seq<Item<N>>, from: nat, n: N)
    requires Seen(visited, items, from) && from + |visited| < |items| && n == items[from + |visited|].id
    ensures Seen(visited + [n], items, from)
  {
  }
}
