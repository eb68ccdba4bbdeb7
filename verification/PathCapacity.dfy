/** How many nodes a tree may hold before a search can run off the end of the ancestor stack. */
module PathCapacity {
  import opened Trees
  import opened Zippers
  import opened IterSpec
  import opened RemoveSpec
  import opened SortedItems
  import opened SearchSpec

  function Pow2(n: nat): (p: nat)
    ensures p >= 1
  {
    if n == 0 then 1 else 2 * Pow2(n - 1)
  }

  lemma {:induction false} Pow2Monotone(a: nat, b: nat)
    requires a <= b
    ensures Pow2(a) <= Pow2(b)
    decreases b
  {
    if a < b {
      Pow2Monotone(a, b - 1);
    }
  }

  function Size<N>(t: Tree<N>): nat {
    if t.Leaf? then 0 else Size(t.left) + 1 + Size(t.right)
  }

  lemma {:induction false} SizeIsWalk<N>(t: Tree<N>, d: Dir)
    ensures Size(t) == |Walk(t, d)|
  {
    if t.Branch? {
      SizeIsWalk(t.left, d);
      SizeIsWalk(t.right, d);
    }
  }

  lemma {:induction false} HeightBound<N>(t: Tree<N>)
    requires RedBlack(t)
    ensures BlackHeight(t) <= Height(t) <= 2 * BlackHeight(t) + (if IsRed(t) then 1 else 0)
    ensures Size(t) + 1 >= Pow2(BlackHeight(t))
  {
    if t.Branch? {
      HeightBound(t.left);
      HeightBound(t.right);
    }
  }

  /** A longest way of b black and r red nodes forces 2^b + 2^r - 2 nodes on and beside it. */
  lemma {:induction false} SizeBound<N>(t: Tree<N>)
    requires RedBlack(t)
    ensures BlackHeight(t) <= Height(t)
    ensures Size(t) + 2 >= Pow2(BlackHeight(t)) + Pow2(Height(t) - BlackHeight(t))
  {
    HeightBound(t);
    if t.Branch? {
      var tall, low := if Height(t.left) > Height(t.right) then t.left else t.right,
                       if Height(t.left) > Height(t.right) then t.right else t.left;
      SizeBound(tall);
      HeightBound(low);
      HeightBound(tall);
      assert Size(t) == Size(tall) + 1 + Size(low);
      if t.color.Red? {
        Pow2Monotone(Height(tall) - BlackHeight(t), BlackHeight(t));
      }
    }
  }

  /** The fewest nodes a legal tree of height 2m or more can have. */
  lemma TallNeedsNodes<N>(t: Tree<N>, m: nat)
    requires Legal(t) && Height(t) >= 2 * m
    ensures Size(t) + 2 >= Pow2(m + 1)
  {
    SizeBound(t);
    HeightBound(t);
    var b, r := BlackHeight(t), Height(t) - BlackHeight(t);
    if b > m {
      Pow2Monotone(m + 1, b);
    } else {
      assert b == m && r == m;
    }
  }

  // ---------- trees that meet the bound ----------

  /** The complete black tree of height `b`, with consecutive keys from `k` on. */
  function Full(b: nat, k: int): Tree<int> {
    if b == 0 then Leaf
    else
      var mid := k + Pow2(b - 1) - 1;
      Branch(Full(b - 1, k), Item(mid, mid), Black, Full(b - 1, mid + 1))
  }

  /** The tree of height 2m with as few nodes as a legal tree of that height can have; it leans to the
      right. */
  function Tall(m: nat, k: int): Tree<int> {
    if m == 0 then Leaf
    else
      var x := k + Pow2(m - 1) - 1;
      var y := x + Pow2(m - 1);
      Branch(Full(m - 1, k), Item(x, x), Black, Branch(Full(m - 1, x + 1), Item(y, y), Red, Tall(m - 1, y + 1)))
  }

  /** A search beyond the greatest key of such a tree passes 2m ancestors. */
  lemma {:induction false} TallSearch(m: nat, k: int, key: int, up: Ctx<int>)
    requires key >= k + Pow2(m + 1) - 2
    ensures Depth(Seek(Tall(m, k), key, up).ctx) == Depth(up) + 2 * m
  {
    if m > 0 {
      var t := Tall(m, k);
      var y := k + 2 * Pow2(m - 1) - 1;
      var up1 := In(FrameOf(t, Right), up);
      var up2 := In(FrameOf(t.right, Right), up1);
      TallSearch(m - 1, y + 1, key, up2);
    }
  }

  // ---------- the exact capacity ----------

  /** A stack of `capacity` entries, the lowest one reserved, serves every search in `t`. */
  predicate Serves<N>(capacity: nat, t: Tree<N>) { Height(t) < capacity }

  /** A search never stacks more ancestors than the tree is high. */
  lemma SeekDepth<N>(t: Tree<N>, k: int)
    requires Sorted(InOrder(t))
    ensures var p := Seek(t, k, Top); Depth(p.ctx) + Height(p.focus) <= Height(t) && Reach(p.ctx) <= Height(t)
  {
    var p := Seek(t, k, Top);
    SeekOrder(t, k);
    PlugHeight(p.ctx, p.focus);
  }

  /** Removal, too, keeps its whole context within the height of the tree it started from. */
  lemma SplicedReach<N>(c: Ctx<N>, t: Tree<N>)
    requires t.Branch?
    ensures var c' := SplicedCtx(c, t); Depth(c') < Height(Plug(c, t)) && Reach(c') <= Height(Plug(c, t))
  {
    if t.left.Branch? && t.right.Branch? {
      var up := In(FrameOf(t, Right).(item := Spliced(t).item), c);
      SpineWalk(t.right, Left, up);
      PlugHeight(SplicedCtx(c, t), Spliced(t));
      RelabelHeight(FrameOf(t, Right), Spliced(t).item, c, t.right);
    } else {
      PlugHeight(c, t);
    }
  }

  lemma RelabelHeight<N>(f: Frame<N>, x: Item<N>, c: Ctx<N>, t: Tree<N>)
    ensures Height(Plug(In(f, c), t)) == Height(Plug(In(f.(item := x), c), t))
  {
    PlugHeight(In(f, c), t);
    PlugHeight(In(f.(item := x), c), t);
  }

  /** Fewer than Pow2(capacity / 2 + 1) - 2 nodes: the stack serves the tree. */
  lemma FewNodesFit<N>(t: Tree<N>, capacity: nat)
    requires Legal(t) && capacity % 2 == 0 && Size(t) + 2 < Pow2(capacity / 2 + 1)
    ensures Serves(capacity, t)
  {
    if Height(t) >= capacity {
      TallNeedsNodes(t, capacity / 2);
    }
  }

  // ---------- the size of a tree that calls made ----------

  lemma EmptyContents<N>()
    ensures Contents<N>(InOrder(Leaf)) == map[]
  {
  }

  /** The tree that calls made has as many nodes as the finite map they describe has keys. */
  lemma RunSize<N>(calls: seq<Call<N>>)
    ensures Good(Run<N>(Leaf, calls).0)
    ensures Size(Run<N>(Leaf, calls).0) == |MapRun<N>(map[], calls).0|
  {
    var t := Run<N>(Leaf, calls).0;
    EmptyContents<N>();
    RunRefinesMap<N>(Leaf, calls);
    ContentsSize(InOrder(t));
    SizeIsWalk(t, Right);
  }

  lemma {:induction false} MapRunSize<N>(calls: seq<Call<N>>)
    ensures |MapRun<N>(map[], calls).0| <= |calls|
  {
    if calls != [] {
      var init, last := calls[..|calls| - 1], calls[|calls| - 1];
      var m := MapRun<N>(map[], init).0;
      MapRunSize(init);
      match last
      case Insert(x) =>
        assert m[x.key := x.id].Keys == m.Keys + {x.key};
      case Find(_) =>
      case Remove(k) =>
        assert (m - {k}).Keys <= m.Keys;
        SubsetSize((m - {k}).Keys, m.Keys);
    }
  }

  lemma {:induction false} SubsetSize<T>(a: set<T>, b: set<T>)
    requires a <= b
    ensures |a| <= |b|
  {
    assert b == a + (b - a);
  }
}
