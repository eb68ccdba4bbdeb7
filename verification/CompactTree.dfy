/** The calls generated for the compact tree, and iteration, as a client sees them. */
module CompactTree {
  import opened Trees
  import opened Zippers
  import opened IterSpec
  import opened InsertSpec
  import opened RemoveSpec
  import opened SortedItems
  import opened SearchSpec
  import opened PathCapacity
  import opened CompactHeap
  import I = CompactInsert
  import R = CompactRemove
  import opened CompactIter

  /** The heap below the root pointer is the root's tree, a red-black search tree. */
  ghost predicate Valid(root: Root)
    reads root, Ids(root.tree)
  {
    Holds(root, Top, root.tree) && Good(root.tree)
  }

  ghost function Map(root: Root): map<int, RbNode>
    reads root, Ids(root.tree)
    requires Valid(root)
  {
    Contents(InOrder(root.tree))
  }

  /** The tree has few enough nodes for a stack of this capacity. */
  predicate RoomFor<N>(capacity: nat, t: Tree<N>) {
    capacity % 2 == 0 && Size(t) + 2 < Pow2(capacity / 2 + 1)
  }

  /** An object of the tree carries the key it is stored under. */
  lemma {:induction false} LinkedKey(t: Tree<RbNode>, n: RbNode)
    requires Linked(t) && n in Ids(t)
    ensures exists i :: 0 <= i < |InOrder(t)| && InOrder(t)[i] == Item(n, n.key)
  {
    var l, r := InOrder(t.left), InOrder(t.right);
    assert InOrder(t) == l + [t.item] + r;
    if n == t.item.id {
      assert InOrder(t)[|l|] == Item(n, n.key);
    } else if n in Ids(t.left) {
      LinkedKey(t.left, n);
      var i :| 0 <= i < |l| && l[i] == Item(n, n.key);
      assert InOrder(t)[i] == l[i];
    } else {
      LinkedKey(t.right, n);
      var i :| 0 <= i < |r| && r[i] == Item(n, n.key);
      assert InOrder(t)[|l| + 1 + i] == r[i];
    }
  }

  /** In a valid tree no right word's low bit is set, so copying left and right words copies exactly
      the children and the colour. */
  lemma RightBitIsClear(root: Root, n: RbNode)
    requires Valid(root) && n in Ids(root.tree)
    ensures n.right.bit == Red
  {
    LinkedBit(root.tree, n);
  }

  lemma {:induction false} LinkedBit(t: Tree<RbNode>, n: RbNode)
    requires Linked(t) && n in Ids(t)
    ensures n.right.bit == Red
  {
    if n in Ids(t.left) {
      LinkedBit(t.left, n);
    } else if n in Ids(t.right) {
      LinkedBit(t.right, n);
    }
  }

  /** The descent by key, stacking every node it leaves. */
  method Search(root: Root, key: int, rp: Path, ghost t: Tree<RbNode>) returns (p: RbNode?)
    requires Holds(root, Top, t) && Height(t) < rp.path.Length && rp.Tracks(Top)
    modifies rp, rp.path
    ensures Points(rp, p, Seek(t, key, Top))
  {
    p := root.root;
    ghost var c, s := Top, t;
    IdsAllocated(t);
    while p != null
      invariant Linked(s) && p == Ptr(s) && Ids(s) <= Ids(t)
      invariant rp.Tracks(c) && Depth(c) + Height(s) < rp.path.Length
      invariant Seek(s, key, c) == Seek(t, key, Top)
      decreases s
    {
      if key == p.key {
        break;
      }
      var dir := if key < p.key then Left else Right;
      ChildColor(s, dir);
      rp.Push(p, dir, FrameOf(s, dir), c);
      c, s := In(FrameOf(s, dir), c), s.Child(dir);
      p := p.Child(dir);
    }
  }

  /** Find returns the node stored under the key, or null exactly when the key is absent. On a hit
      the stack it leaves is the place of that node, ready for removal and iteration. */
  method RbFind(root: Root, key: int, rp: Path) returns (p: RbNode?)
    requires Valid(root) && Serves(rp.path.Length, root.tree)
    modifies rp, rp.path
    ensures Valid(root) && p == (if key in Map(root) then Map(root)[key] else null)
    ensures var place := Seek(root.tree, key, Top);
            Points(rp, p, place) && Holds(root, place.ctx, place.focus) && Plug(place.ctx, place.focus) == root.tree
  {
    IdsAllocated(root.tree);
    rp.Init();
    p := Search(root, key, rp, root.tree);
    SeekOrder(root.tree, key);
    ghost var place := Seek(root.tree, key, Top);
    HoldsPlug(root, place.ctx, place.focus);
  }

  /** Hangs a new red node into the empty place below the stack. */
  method HangNew(root: Root, rp: Path, node: RbNode, ghost c: Ctx<RbNode>)
    requires Holds(root, c, Leaf) && rp.Tracks(c) && node !in CtxIds(c)
    modifies root`root, CtxIds(c), node
    ensures Holds(root, c, Single(Item(node, node.key)))
  {
    CtxIdsAllocated(c);
    rp.TopEntry(c);
    if root.root != null {
      RootIsAbove(c, null);
      var e := rp.path[rp.cur];
      e.parent.SetChild(e.dir, node);
    } else {
      RootIsAbove(c, null);
      root.root := node;
    }
    node.SetLeftChildColor(null, Red);
    node.SetRightChild(null);
  }

  /** The map holds exactly the nodes of the tree, each under its own key. */
  lemma MapIsNodes(root: Root, n: RbNode)
    requires Valid(root)
    ensures n in Ids(root.tree) <==> n.key in Map(root) && Map(root)[n.key] == n
    ensures forall k :: k in Map(root) ==> Map(root)[k] in Ids(root.tree) && Map(root)[k].key == k
  {
    var t := root.tree;
    var s := InOrder(t);
    IdsAreWalked(t, Right);
    if n in Ids(t) {
      LinkedKey(t, n);
      var i :| 0 <= i < |s| && s[i] == Item(n, n.key);
      ContentsAt(s, i);
    }
    forall k | k in Map(root)
      ensures Map(root)[k] in Ids(t) && Map(root)[k].key == k
    {
      var i := ContentsIndex(s, k);
      ItemKey(t, i);
    }
  }

  lemma {:induction false} ItemKey(t: Tree<RbNode>, i: int)
    requires Linked(t) && 0 <= i < |InOrder(t)|
    ensures InOrder(t)[i].id in Ids(t) && InOrder(t)[i].id.key == InOrder(t)[i].key
  {
    var l, r := InOrder(t.left), InOrder(t.right);
    assert InOrder(t) == l + [t.item] + r;
    if i < |l| {
      ItemKey(t.left, i);
    } else if i > |l| {
      ItemKey(t.right, i - |l| - 1);
    }
  }

  /** A node whose key the tree does not hold is not in the tree. */
  lemma NewKeyNewNode(t: Tree<RbNode>, node: RbNode)
    requires Linked(t) && Sorted(InOrder(t)) && node.key !in Contents(InOrder(t))
    ensures node !in Ids(t)
  {
    if node in Ids(t) {
      LinkedKey(t, node);
    }
  }

  /** Insertion once the search has missed. */
  method InsertAt(root: Root, rp: Path, node: RbNode, ghost c: Ctx<RbNode>)
    requires Holds(root, c, Leaf) && rp.Tracks(c) && node !in CtxIds(c) && Sound(c, 0)
    modifies root, rp, CtxIds(c), node
    ensures root.tree == InsertFix(c, Single(Item(node, node.key))) && Holds(root, Top, root.tree)
    ensures Ids(root.tree) == CtxIds(c) + {node}
    ensures root.turns == old(root.turns) + InsertTurns(c, Single(Item(node, node.key)))
  {
    ghost var t := Single(Item(node, node.key));
    HangNew(root, rp, node, c);
    I.RbInsertColor(root, rp, c, t);
    root.tree := InsertFix(c, t);
  }

  /** Insert hangs a new node in and repairs colours, or returns the node that already has the key. */
  method RbInsert(root: Root, node: RbNode, capacity: nat) returns (p: RbNode)
    requires Valid(root) && RoomFor(capacity, root.tree)
    modifies root, Ids(root.tree), node
    ensures Valid(root) && root.tree == Inserted(old(root.tree), Item(node, node.key))
    ensures p == if node.key in old(Map(root)) then old(Map(root))[node.key] else node
    ensures Map(root) == if node.key in old(Map(root)) then old(Map(root)) else old(Map(root))[node.key := node]
    ensures Ids(root.tree) == if node.key in old(Map(root)) then Ids(old(root.tree)) else Ids(old(root.tree)) + {node}
    ensures root.turns == old(root.turns) + CallTurns(old(root.tree), Insert(Item(node, node.key)))
    ensures node.key in old(Map(root)) ==> unchanged(node) && root.root == old(root.root)
  {
    ghost var t := root.tree;
    IdsAllocated(t);
    FewNodesFit(t, capacity);
    assert capacity > 0;
    var rp := new Path(capacity);
    var found := RbFind(root, node.key, rp);
    InsertedIsCorrect(t, Item(node, node.key));
    if found != null {
      p := found;
    } else {
      InsertPlace(root, node, rp);
      p := node;
    }
  }

  /** Insertion at the place where the search has left the stack. */
  method InsertPlace(root: Root, node: RbNode, rp: Path)
    requires Valid(root) && Points(rp, null, Seek(root.tree, node.key, Top))
    modifies root, rp, rp.path, Ids(root.tree), node
    ensures Holds(root, Top, root.tree) && root.tree == Inserted(old(root.tree), Item(node, node.key))
    ensures Ids(root.tree) == Ids(old(root.tree)) + {node}
    ensures root.turns == old(root.turns) + CallTurns(old(root.tree), Insert(Item(node, node.key)))
  {
    ghost var t := root.tree;
    ghost var c := Seek(t, node.key, Top).ctx;
    SeekOrder(t, node.key);
    NewKeyNewNode(t, node);
    HoldsMoved(root, Top, t, c, Leaf);
    PlugLegal(c, Leaf);
    InsertAt(root, rp, node, c);
  }

  /** Removal once the search has hit. */
  method RemoveFound(root: Root, node: RbNode, rp: Path, ghost c: Ctx<RbNode>, ghost t: Tree<RbNode>)
    requires Holds(root, c, t) && t.Branch? && node == t.item.id && rp.Tracks(c)
    requires Legal(Plug(c, t)) && Height(Plug(c, t)) < rp.path.Length
    modifies root, rp, rp.path, CtxIds(c), Ids(t)
    ensures root.tree == RemoveAt(c, t) && Holds(root, Top, root.tree)
    ensures Ids(root.tree) == CtxIds(c) + Ids(t) - {node}
    ensures unchanged(node)
    ensures root.turns == old(root.turns) + RemoveAtTurns(c, t)
  {
    R.RbRemove(root, node, rp, c, t);
    root.tree := RemoveAt(c, t);
  }

  /** The second half of removal by key: `p` and the stack are what the search left. */
  method RemovePlace(root: Root, p: RbNode?, key: int, rp: Path)
    requires Valid(root) && Serves(rp.path.Length, root.tree) && Points(rp, p, Seek(root.tree, key, Top))
    modifies root, rp, rp.path, Ids(root.tree)
    ensures Holds(root, Top, root.tree) && root.tree == Removed(old(root.tree), key)
    ensures Ids(root.tree) == if p == null then Ids(old(root.tree)) else Ids(old(root.tree)) - {p}
    ensures root.turns == old(root.turns) + CallTurns(old(root.tree), Remove(key))
    ensures p != null ==> unchanged(p)
  {
    ghost var t := root.tree;
    ghost var place := Seek(t, key, Top);
    SeekOrder(t, key);
    if p != null {
      HoldsMoved(root, Top, t, place.ctx, place.focus);
      RemoveFound(root, p, rp, place.ctx, place.focus);
    }
  }

  /** Remove finds the key and removes its node; an absent key changes nothing. */
  method RbRemoveKey(root: Root, key: int, capacity: nat) returns (p: RbNode?)
    requires Valid(root) && RoomFor(capacity, root.tree)
    modifies root, Ids(root.tree)
    ensures Valid(root) && root.tree == Removed(old(root.tree), key)
    ensures p == if key in old(Map(root)) then old(Map(root))[key] else null
    ensures Map(root) == old(Map(root)) - {key}
    ensures Ids(root.tree) == if key in old(Map(root)) then Ids(old(root.tree)) - {p} else Ids(old(root.tree))
    ensures root.turns == old(root.turns) + CallTurns(old(root.tree), Remove(key))
  {
    ghost var t := root.tree;
    IdsAllocated(t);
    FewNodesFit(t, capacity);
    assert capacity > 0;
    var rp := new Path(capacity);
    p := RbFind(root, key, rp);
    RemovedIsCorrect(t, key);
    RemovePlace(root, p, key, rp);
  }

  // ---------- iteration ----------

  /** One next: from the place of rank `i` to the place of rank `i + 1`. */
  method VisitNext(root: Root, node: RbNode, d: Dir, rp: Path, ghost place: Place<RbNode>, ghost i: nat)
    returns (next: RbNode?)
    requires Valid(root) && Serves(rp.path.Length, root.tree) && Points(rp, node, place)
    requires i < |Walk(root.tree, d)| && PlaceOf(place, root.tree, d, i)
    modifies rp, rp.path
    ensures Valid(root) && node == Walk(root.tree, d)[i].id
    ensures Points(rp, next, Step(place.ctx, place.focus, d))
    ensures PlaceOf(Step(place.ctx, place.focus, d), root.tree, d, i + 1)
  {
    IdsAllocated(root.tree);
    HoldsPlug(root, place.ctx, place.focus);
    StepIsNext(place.ctx, place.focus, d);
    next := RbIterNext(root, node, d, rp, place);
  }

  /** Repeated next from the node of rank `i` meets every later node once, in order, and then null. */
  method VisitFrom(root: Root, start: RbNode?, d: Dir, rp: Path, ghost start': Place<RbNode>, ghost i: nat)
    returns (visited: seq<RbNode>)
    requires Valid(root) && Serves(rp.path.Length, root.tree) && Points(rp, start, start')
    requires i <= |Walk(root.tree, d)| && PlaceOf(start', root.tree, d, i)
    modifies rp, rp.path
    ensures Valid(root) && rp.Tracks(Top)
    ensures SeenToEnd(visited, Walk(root.tree, d), i)
  {
    visited := [];
    var p := start;
    ghost var place := start';
    IdsAllocated(root.tree);
    while p != null
      invariant Seen(visited, Walk(root.tree, d), i) && PlaceOf(place, root.tree, d, i + |visited|)
      invariant Points(rp, p, place) && Valid(root)
      decreases |Walk(root.tree, d)| - |visited|
    {
      ghost var rank := i + |visited|;
      var node := p;
      p := VisitNext(root, node, d, rp, place, rank);
      SeeOneMore(visited, Walk(root.tree, d), i, node);
      visited := visited + [node];
      place := Step(place.ctx, place.focus, d);
    }
  }

  /** First, then next to the end (or, for Left, last and then previous): every node once, in order. */
  method VisitAll(root: Root, d: Dir, rp: Path) returns (visited: seq<RbNode>)
    requires Valid(root) && Serves(rp.path.Length, root.tree)
    modifies rp, rp.path
    ensures Valid(root) && SeenToEnd(visited, Walk(root.tree, d), 0)
  {
    IdsAllocated(root.tree);
    EndIsFirst(root.tree, d.Flip());
    var p := RbIter(root, d.Flip(), rp, root.tree);
    visited := VisitFrom(root, p, d, rp, EndOf(root.tree, d.Flip()), 0);
  }

  /** From a found key, next to the end meets exactly the nodes from that key on. */
  method VisitFromKey(root: Root, key: int, d: Dir, rp: Path) returns (visited: seq<RbNode>)
    requires Valid(root) && Serves(rp.path.Length, root.tree) && key in Map(root)
    modifies rp, rp.path
    ensures Valid(root)
    ensures exists i :: 0 <= i < |Walk(root.tree, d)| && Walk(root.tree, d)[i].key == key
                     && SeenToEnd(visited, Walk(root.tree, d), i)
  {
    IdsAllocated(root.tree);
    ghost var place := Seek(root.tree, key, Top);
    SeekOrder(root.tree, key);
    RankIsPlace(place.ctx, place.focus, d);
    ghost var i := Rank(place.ctx, place.focus, d);
    var p := RbFind(root, key, rp);
    visited := VisitFrom(root, p, d, rp, place, i);
  }

  /** Next and then previous: back at the node, and the live part of the stack is as it was. */
  method NextAndBack(root: Root, node: RbNode, d: Dir, rp: Path, ghost c: Ctx<RbNode>, ghost t: Tree<RbNode>)
    returns (next: RbNode?, back: RbNode?)
    requires Holds(root, c, t) && t.Branch? && node == t.item.id && rp.Tracks(c)
    requires Height(Plug(c, t)) < rp.path.Length
    modifies rp, rp.path
    ensures next != null ==> back == node && rp.cur == old(rp.cur)
    ensures next != null ==> rp.path[1..rp.cur + 1] == old(rp.path[1..rp.cur + 1])
    ensures next == null <==> Rank(c, t, d) + 1 == |Walk(Plug(c, t), d)|
  {
    IdsAllocated(t);
    CtxIdsAllocated(c);
    RankIsPlace(c, t, d);
    StepIsNext(c, t, d);
    next := RbIterNext(root, node, d, rp, At(c, t));
    back := null;
    if next != null {
      back := Back(root, next, d, rp, c, t);
    }
  }

  /** The step back from the place that next has reached. */
  method Back(root: Root, next: RbNode, d: Dir, rp: Path, ghost c: Ctx<RbNode>, ghost t: Tree<RbNode>)
    returns (back: RbNode?)
    requires Holds(root, c, t) && t.Branch? && Height(Plug(c, t)) < rp.path.Length
    requires Step(c, t, d).At? && Points(rp, next, Step(c, t, d))
    modifies rp, rp.path
    ensures Points(rp, back, At(c, t))
  {
    ghost var p := Step(c, t, d);
    StepIsNext(c, t, d);
    StepBack(c, t, d);
    HoldsMoved(root, c, t, p.ctx, p.focus);
    back := RbIterNext(root, next, d.Flip(), rp, p);
  }

  /** Steps `n` times from the first node. */
  method VisitNth(root: Root, n: nat, rp: Path) returns (p: RbNode?, ghost place: Place<RbNode>)
    requires Valid(root) && Serves(rp.path.Length, root.tree) && n <= |InOrder(root.tree)|
    modifies rp, rp.path
    ensures Valid(root) && Points(rp, p, place) && PlaceOf(place, root.tree, Right, n)
  {
    IdsAllocated(root.tree);
    EndIsFirst(root.tree, Left);
    p := RbIter(root, Left, rp, root.tree);
    place := EndOf(root.tree, Left);
    var i := 0;
    while i < n
      invariant i <= n && Valid(root)
      invariant Points(rp, p, place) && PlaceOf(place, root.tree, Right, i)
    {
      p := VisitNext(root, p, Right, rp, place, i);
      place := Step(place.ctx, place.focus, Right);
      i := i + 1;
    }
  }

  /** Steps `n` times from the first node and removes the node reached: iteration leaves the stack as
      removal needs it, and exactly the item of rank `n` disappears. */
  method RemoveNth(root: Root, n: nat, rp: Path)
    requires Valid(root) && Serves(rp.path.Length, root.tree) && n < |InOrder(root.tree)|
    modifies root, rp, rp.path, Ids(root.tree)
    ensures Valid(root)
    ensures InOrder(root.tree) == old(InOrder(root.tree))[..n] + old(InOrder(root.tree))[n + 1..]
  {
    ghost var t := root.tree;
    IdsAllocated(t);
    ghost var place;
    var p;
    p, place := VisitNth(root, n, rp);
    HoldsMoved(root, Top, t, place.ctx, place.focus);
    RemovedAtRank(place.ctx, place.focus);
    RemoveFound(root, p, rp, place.ctx, place.focus);
  }
}
