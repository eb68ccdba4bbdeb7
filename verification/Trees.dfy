/** Coloured binary trees: the value that both red-black tree implementations keep in the heap.

    A branch holds the identity of the node object and its key. Identities are a type parameter
    `N`, so that one specification explains both implementations, whose node types differ. */
module Trees {

  datatype Color = Red | Black

  datatype Dir = Left | Right {
    function Flip(): (d: Dir)
      ensures d != this
    {
      if Left? then Right else Left
    }
  }

  datatype Item<N> = Item(id: N, key: int)

  datatype Tree<N> = Leaf | Branch(left: Tree<N>, item: Item<N>, color: Color, right: Tree<N>) {
    function Child(d: Dir): Tree<N>
      requires Branch?
    {
      if d.Left? then left else right
    }
  }

  /** The branch whose child in direction `d` is `near` and whose other child is `far`. */
  function Join<N>(d: Dir, near: Tree<N>, item: Item<N>, color: Color, far: Tree<N>): (t: Tree<N>)
    ensures t.Branch? && t.Child(d) == near && t.Child(d.Flip()) == far && t.item == item && t.color == color
  {
    if d.Left? then Branch(near, item, color, far) else Branch(far, item, color, near)
  }

  predicate IsRed<N>(t: Tree<N>) { t.Branch? && t.color.Red? }

  predicate IsBlack<N>(t: Tree<N>) { !IsRed(t) }

  function Recolor<N>(t: Tree<N>, c: Color): Tree<N> {
    if t.Leaf? then t else t.(color := c)
  }

  // ---------- contents ----------

  /** The items met on a walk towards direction `d`: ascending for Right, descending for Left. */
  function Walk<N>(t: Tree<N>, d: Dir): seq<Item<N>> {
    if t.Leaf? then [] else Walk(t.Child(d.Flip()), d) + [t.item] + Walk(t.Child(d), d)
  }

  function InOrder<N>(t: Tree<N>): seq<Item<N>> { Walk(t, Right) }

  ghost function Ids<N>(t: Tree<N>): set<N> {
    if t.Leaf? then {} else Ids(t.left) + {t.item.id} + Ids(t.right)
  }

  /** No node object occurs twice. */
  ghost predicate Distinct<N>(t: Tree<N>) {
    t.Branch? ==>
      && Distinct(t.left) && Distinct(t.right)
      && t.item.id !in Ids(t.left) && t.item.id !in Ids(t.right)
      && Ids(t.left) !! Ids(t.right)
  }

  // ---------- shape ----------

  function Max(a: int, b: int): int { if a < b then b else a }

  /** The number of nodes on the longest way from the root to a leaf. */
  function Height<N>(t: Tree<N>): nat {
    if t.Leaf? then 0 else 1 + Max(Height(t.left), Height(t.right))
  }

  /** The number of black nodes on the leftmost way down, hence on every way in a red-black tree. */
  function BlackHeight<N>(t: Tree<N>): nat {
    if t.Leaf? then 0 else BlackHeight(t.left) + Weight(t.color)
  }

  function Weight(c: Color): nat { if c.Black? then 1 else 0 }

  /** The two red-black laws, without the law on the root's colour. */
  predicate RedBlack<N>(t: Tree<N>) {
    t.Branch? ==>
      && RedBlack(t.left) && RedBlack(t.right)
      && BlackHeight(t.left) == BlackHeight(t.right)
      && (t.color.Red? ==> IsBlack(t.left) && IsBlack(t.right))
  }

  /** A legal red-black tree: black root, no red node with a red child, equal black heights. */
  predicate Legal<N>(t: Tree<N>) { IsBlack(t) && RedBlack(t) }

  // ---------- what the laws mean ----------

  /** A way from the root down to a leaf. */
  predicate IsWay<N>(t: Tree<N>, way: seq<Dir>) {
    if t.Leaf? then way == [] else way != [] && IsWay(t.Child(way[0]), way[1..])
  }

  /** The black nodes on a way. */
  function Blacks<N>(t: Tree<N>, way: seq<Dir>): nat
    requires IsWay(t, way)
  {
    if t.Leaf? then 0 else Weight(t.color) + Blacks(t.Child(way[0]), way[1..])
  }

  /** No red node has a red child. */
  predicate NoRedPair<N>(t: Tree<N>) {
    t.Branch? ==>
      && NoRedPair(t.left) && NoRedPair(t.right)
      && (t.color.Red? ==> IsBlack(t.left) && IsBlack(t.right))
  }

  ghost predicate EqualWays<N>(t: Tree<N>) {
    forall v, w :: IsWay(t, v) && IsWay(t, w) ==> Blacks(t, v) == Blacks(t, w)
  }

  lemma {:induction false} WayCount<N>(t: Tree<N>, way: seq<Dir>)
    requires RedBlack(t) && IsWay(t, way)
    ensures Blacks(t, way) == BlackHeight(t)
  {
    if t.Branch? {
      WayCount(t.Child(way[0]), way[1..]);
    }
  }

  lemma {:induction false} SomeWay<N>(t: Tree<N>) returns (way: seq<Dir>)
    ensures IsWay(t, way)
  {
    if t.Leaf? {
      way := [];
    } else {
      var rest := SomeWay(t.left);
      way := [Left] + rest;
    }
  }

  lemma ChildWays<N>(t: Tree<N>, d: Dir)
    requires t.Branch? && EqualWays(t)
    ensures EqualWays(t.Child(d))
  {
    forall v, w | IsWay(t.Child(d), v) && IsWay(t.Child(d), w)
      ensures Blacks(t.Child(d), v) == Blacks(t.Child(d), w)
    {
      var v', w' := [d] + v, [d] + w;
      assert v'[1..] == v && w'[1..] == w;
      assert IsWay(t, v') && IsWay(t, w');
    }
  }

  lemma EqualHeights<N>(t: Tree<N>)
    requires t.Branch? && RedBlack(t.left) && RedBlack(t.right) && EqualWays(t)
    ensures BlackHeight(t.left) == BlackHeight(t.right)
  {
    var v := SomeWay(t.left);
    var w := SomeWay(t.right);
    WayCount(t.left, v);
    WayCount(t.right, w);
    var v', w' := [Left] + v, [Right] + w;
    assert v'[1..] == v && w'[1..] == w && IsWay(t, v') && IsWay(t, w');
    assert Blacks(t, v') == Blacks(t, w');
  }

  /** The laws say exactly that no red node has a red child and that every way from the root to a
      leaf meets the same number of black nodes. */
  lemma {:induction false} RedBlackMeaning<N>(t: Tree<N>)
    ensures RedBlack(t) <==> NoRedPair(t) && EqualWays(t)
  {
    if t.Branch? {
      RedBlackMeaning(t.left);
      RedBlackMeaning(t.right);
    }
    if RedBlack(t) {
      forall v, w | IsWay(t, v) && IsWay(t, w)
        ensures Blacks(t, v) == Blacks(t, w)
      {
        WayCount(t, v);
        WayCount(t, w);
      }
    }
    if t.Branch? && NoRedPair(t) && EqualWays(t) {
      ChildWays(t, Left);
      ChildWays(t, Right);
      EqualHeights(t);
    }
  }

  // ---------- rotation ----------

  /** The subtree after its root went down in direction `d` and its other child came up. */
  function Rotate<N>(t: Tree<N>, d: Dir): (r: Tree<N>)
    requires t.Branch? && t.Child(d.Flip()).Branch?
    ensures r.Branch? && r.Child(d).Branch?
  {
    var pivot := t.Child(d.Flip());
    Join(d, Join(d, t.Child(d), t.item, t.color, pivot.Child(d)), pivot.item, pivot.color, pivot.Child(d.Flip()))
  }

  lemma WalkJoin<N>(d: Dir, near: Tree<N>, item: Item<N>, c: Color, far: Tree<N>, e: Dir)
    ensures Walk(Join(d, near, item, c, far), e)
         == if d == e then Walk(far, e) + [item] + Walk(near, e) else Walk(near, e) + [item] + Walk(far, e)
  {
  }

  /** Rotation keeps the order of the nodes. */
  lemma RotateKeepsOrder<N>(t: Tree<N>, d: Dir, e: Dir)
    requires t.Branch? && t.Child(d.Flip()).Branch?
    ensures Walk(Rotate(t, d), e) == Walk(t, e)
  {
    var pivot := t.Child(d.Flip());
    var a, b, c := t.Child(d), pivot.Child(d), pivot.Child(d.Flip());
    var low := Join(d, a, t.item, t.color, b);
    WalkJoin(d, a, t.item, t.color, b, e);
    WalkJoin(d, low, pivot.item, pivot.color, c, e);
    WalkJoin(d, a, t.item, t.color, pivot, e);
    WalkJoin(d, b, pivot.item, pivot.color, c, e);
    Regroup(Walk(a, e), t.item, Walk(b, e), pivot.item, Walk(c, e));
    Regroup(Walk(c, e), pivot.item, Walk(b, e), t.item, Walk(a, e));
    assert pivot == Join(d, b, pivot.item, pivot.color, c);
    assert t == Join(d, a, t.item, t.color, pivot);
  }

  lemma Regroup<T>(a: seq<T>, x: T, b: seq<T>, y: T, c: seq<T>)
    ensures (a + [x] + b) + [y] + c == a + [x] + (b + [y] + c)
  {
  }

  /** Rotation keeps the set of node objects and their distinctness. */
  lemma RotateKeepsIds<N>(t: Tree<N>, d: Dir)
    requires t.Branch? && t.Child(d.Flip()).Branch?
    ensures Ids(Rotate(t, d)) == Ids(t)
    ensures Distinct(t) ==> Distinct(Rotate(t, d))
  {
    var pivot := t.Child(d.Flip());
    var low := Join(d, t.Child(d), t.item, t.color, pivot.Child(d));
    assert Ids(low) == Ids(t.Child(d)) + {t.item.id} + Ids(pivot.Child(d));
    assert Distinct(t) ==> Distinct(pivot) && Distinct(low);
  }

  lemma RecolorKeepsOrder<N>(t: Tree<N>, c: Color)
    ensures InOrder(Recolor(t, c)) == InOrder(t)
    ensures Ids(Recolor(t, c)) == Ids(t)
    ensures Distinct(Recolor(t, c)) == Distinct(t)
  {
  }

  // ---------- walks ----------

  function Reverse<T>(s: seq<T>): (r: seq<T>)
    ensures |r| == |s| && forall i :: 0 <= i < |s| ==> r[i] == s[|s| - 1 - i]
  {
    if s == [] then [] else Reverse(s[1..]) + [s[0]]
  }

  lemma ReverseJoin<T>(a: seq<T>, x: T, b: seq<T>)
    ensures Reverse(a + [x] + b) == Reverse(b) + [x] + Reverse(a)
  {
  }

  /** The walk to the left is the walk to the right read backwards. */
  lemma {:induction false} WalkMirror<N>(t: Tree<N>)
    ensures Walk(t, Left) == Reverse(Walk(t, Right))
  {
    if t.Branch? {
      WalkMirror(t.left);
      WalkMirror(t.right);
      ReverseJoin(Walk(t.left, Right), t.item, Walk(t.right, Right));
    }
  }

  ghost function IdsOf<N>(s: seq<Item<N>>): set<N> {
    set i | 0 <= i < |s| :: s[i].id
  }

  lemma IdsOfConcat<N>(a: seq<Item<N>>, b: seq<Item<N>>)
    ensures IdsOf(a + b) == IdsOf(a) + IdsOf(b)
  {
    forall i | 0 <= i < |b|
      ensures b[i].id in IdsOf(a + b)
    {
      assert (a + b)[|a| + i] == b[i];
    }
    forall i | 0 <= i < |a|
      ensures a[i].id in IdsOf(a + b)
    {
      assert (a + b)[i] == a[i];
    }
  }

  /** A node object belongs to the tree exactly when the walk meets it. */
  lemma {:induction false} IdsAreWalked<N>(t: Tree<N>, d: Dir)
    ensures Ids(t) == IdsOf(Walk(t, d))
  {
    if t.Branch? {
      var before, after := t.Child(d.Flip()), t.Child(d);
      IdsAreWalked(before, d);
      IdsAreWalked(after, d);
      IdsOfConcat(Walk(before, d), [t.item]);
      IdsOfConcat(Walk(before, d) + [t.item], Walk(after, d));
      assert IdsOf([t.item]) == {[t.item][0].id};
    }
  }
}
