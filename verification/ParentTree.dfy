/** The calls generated for the parent-pointer tree, and iteration, as a client sees them. */
module ParentTree {
  import opened Trees
  import opened Zippers
  import opened IterSpec
  import opened InsertSpec
  import opened RemoveSpec
  import opened SortedItems
  import opened SearchSpec
  import opened ParentHeap
  import I = ParentInsert
  import R = ParentRemove
  import opened ParentIter

  /** The heap below the root pointer is the root's tree, a red-black search tree, and parent and
      child links are mutual inverses. */
  ghost predicate Valid(root: Root)
    reads root, Ids(root.tree)
  {
    Holds(root, Top, root.tree) && Good(root.tree)
  }

  ghost function Map(root: Root): map<int, RbNode>
    reads root, Ids(root.tree)
    requires Valid(root)
  {
    Contents(InOrder(root.tree))
  }

  /** In a valid tree exactly the root node has no parent, every other node is a child of its parent,
      and every child names its parent. */
  lemma ValidLinks(root: Root, n: RbNode)
    requires Valid(root) && n in Ids(root.tree)
    ensures n.Parent() == null <==> n == root.root
    ensures n.Parent() != null ==> n.Parent() in Ids(root.tree) && (n.Parent().left == n || n.Parent().right == n)
    ensures forall d: Dir :: n.Child(d) != null ==> n.Child(d) in Ids(root.tree) && n.Child(d).Parent() == n
  {
    LinksAreInverse(root.tree, null, n);
  }

  /** An object of the tree carries the key it is stored under. */
  lemma {:induction false} LinkedKey(t: Tree<RbNode>, parent: RbNode?, n: RbNode)
    requires Linked(t, parent) && n in Ids(t)
    ensures exists i :: 0 <= i < |InOrder(t)| && InOrder(t)[i] == Item(n, n.key)
  {
    var l, r := InOrder(t.left), InOrder(t.right);
    assert InOrder(t) == l + [t.item] + r;
    if n == t.item.id {
      assert InOrder(t)[|l|] == Item(n, n.key);
    } else if n in Ids(t.left) {
      LinkedKey(t.left, t.item.id, n);
      var i :| 0 <= i < |l| && l[i] == Item(n, n.key);
      assert InOrder(t)[i] == l[i];
    } else {
      LinkedKey(t.right, t.item.id, n);
      var i :| 0 <= i < |r| && r[i] == Item(n, n.key);
      assert InOrder(t)[|l| + 1 + i] == r[i];
    }
  }

  /** The map holds exactly the nodes of the tree, each under its own key. */
  lemma MapIsNodes(root: Root, n: RbNode)
    requires Valid(root)
    ensures n in Ids(root.tree) <==> n.key in Map(root) && Map(root)[n.key] == n
    ensures forall k :: k in Map(root) ==> Map(root)[k] in Ids(root.tree) && Map(root)[k].key == k
  {
    var t := root.tree;
    var s := InOrder(t);
    IdsAreWalked(t, Right);
    if n in Ids(t) {
      LinkedKey(t, null, n);
      var i :| 0 <= i < |s| && s[i] == Item(n, n.key);
      ContentsAt(s, i);
    }
    forall k | k in Map(root)
      ensures Map(root)[k] in Ids(t) && Map(root)[k].key == k
    {
      var i := ContentsIndex(s, k);
      ItemKey(t, i, null);
    }
  }

  lemma {:induction false} ItemKey(t: Tree<RbNode>, i: int, parent: RbNode?)
    requires Linked(t, parent) && 0 <= i < |InOrder(t)|
    ensures InOrder(t)[i].id in Ids(t) && InOrder(t)[i].id.key == InOrder(t)[i].key
  {
    var l, r := InOrder(t.left), InOrder(t.right);
    assert InOrder(t) == l + [t.item] + r;
    if i < |l| {
      ItemKey(t.left, i, t.item.id);
    } else if i > |l| {
      ItemKey(t.right, i - |l| - 1, t.item.id);
    }
  }

  /** A node whose key the tree does not hold is not in the tree. */
  lemma NewKeyNewNode(t: Tree<RbNode>, node: RbNode)
    requires Linked(t, null) && Sorted(InOrder(t)) && node.key !in Contents(InOrder(t))
    ensures node !in Ids(t)
  {
    if node in Ids(t) {
      LinkedKey(t, null, node);
    }
  }

  /** Find returns the node stored under the key, or null exactly when the key is absent. */
  method RbFind(root: Root, key: int) returns (p: RbNode?)
    requires Valid(root)
    ensures Valid(root) && p == (if key in Map(root) then Map(root)[key] else null)
    ensures p == NodeAt(Seek(root.tree, key, Top))
  {
    IdsAllocated(root.tree);
    ghost var c, s, parent: RbNode? := Top, root.tree, null;
    p := root.root;
    while p != null
      invariant Linked(s, parent) && p == Ptr(s)
      invariant Seek(s, key, c) == Seek(root.tree, key, Top)
      decreases s
    {
      if key == p.key {
        break;
      }
      var dir := if key < p.key then Left else Right;
      ChildColor(s, dir, parent);
      c, s, parent := In(FrameOf(s, dir), c), s.Child(dir), p;
      p := p.Child(dir);
    }
    SeekOrder(root.tree, key);
  }

  /** The descent of insert: the place of the key, the node above it and the side it hangs on. */
  method SeekParent(root: Root, key: int) returns (p: RbNode?, parent: RbNode?, dir: Dir)
    requires Valid(root)
    ensures Valid(root)
    ensures var place := Seek(root.tree, key, Top);
            && p == NodeAt(place) && parent == Above(place.ctx, null)
            && (place.ctx.In? ==> dir == place.ctx.frame.dir)
  {
    IdsAllocated(root.tree);
    ghost var c, s := Top, root.tree;
    p, parent, dir := root.root, null, Left;
    while p != null
      invariant Linked(s, parent) && p == Ptr(s) && parent == Above(c, null) && (c.In? ==> dir == c.frame.dir)
      invariant Seek(s, key, c) == Seek(root.tree, key, Top)
      decreases s
    {
      if key == p.key {
        break;
      }
      ChildColor(s, if key < p.key then Left else Right, parent);
      parent := p;
      dir := if key < p.key then Left else Right;
      c, s := In(FrameOf(s, dir), c), s.Child(dir);
      p := p.Child(dir);
    }
  }

  /** Hangs a new red node into the empty place below `parent`. */
  method HangNew(root: Root, parent: RbNode?, dir: Dir, node: RbNode, ghost c: Ctx<RbNode>)
    requires Holds(root, c, Leaf) && node !in CtxIds(c)
    requires parent == Above(c, null) && (c.In? ==> dir == c.frame.dir)
    modifies root`root, CtxIds(c), node
    ensures Holds(root, c, Single(Item(node, node.key)))
  {
    CtxIdsAllocated(c);
    if parent != null {
      parent.SetChild(dir, node);
    } else {
      root.root := node;
    }
    node.SetParentColor(parent, Red);
    node.left, node.right := null, null;
  }

  /** Insertion once the search has missed. */
  method InsertAt(root: Root, parent: RbNode?, dir: Dir, node: RbNode, ghost c: Ctx<RbNode>)
    requires Holds(root, c, Leaf) && node !in CtxIds(c) && Sound(c, 0)
    requires parent == Above(c, null) && (c.In? ==> dir == c.frame.dir)
    modifies root, CtxIds(c), node
    ensures root.tree == InsertFix(c, Single(Item(node, node.key))) && Holds(root, Top, root.tree)
    ensures Ids(root.tree) == CtxIds(c) + {node}
    ensures root.turns == old(root.turns) + InsertTurns(c, Single(Item(node, node.key)))
  {
    ghost var t := Single(Item(node, node.key));
    HangNew(root, parent, dir, node, c);
    I.RbInsertColor(root, node, c, t);
    root.tree := InsertFix(c, t);
  }

  /** Insert hangs a new node in and repairs colours, or returns the node that already has the key. */
  method RbInsert(root: Root, node: RbNode) returns (p: RbNode)
    requires Valid(root)
    modifies root, Ids(root.tree), node
    ensures Valid(root) && root.tree == Inserted(old(root.tree), Item(node, node.key))
    ensures p == if node.key in old(Map(root)) then old(Map(root))[node.key] else node
    ensures Map(root) == if node.key in old(Map(root)) then old(Map(root)) else old(Map(root))[node.key := node]
    ensures Ids(root.tree) == if node.key in old(Map(root)) then Ids(old(root.tree)) else Ids(old(root.tree)) + {node}
    ensures root.turns == old(root.turns) + CallTurns(old(root.tree), Insert(Item(node, node.key)))
    ensures node.key in old(Map(root)) ==> unchanged(node) && root.root == old(root.root)
  {
    ghost var t := root.tree;
    IdsAllocated(t);
    var found, parent, dir := SeekParent(root, node.key);
    SeekOrder(t, node.key);
    InsertedIsCorrect(t, Item(node, node.key));
    if found != null {
      p := found;
    } else {
      ghost var c := Seek(t, node.key, Top).ctx;
      NewKeyNewNode(t, node);
      HoldsMoved(root, Top, t, c, Leaf);
      PlugLegal(c, Leaf);
      InsertAt(root, parent, dir, node, c);
      p := node;
    }
  }

  /** Removal once the search has hit. */
  method RemoveFound(root: Root, node: RbNode, ghost c: Ctx<RbNode>, ghost t: Tree<RbNode>)
    requires Holds(root, c, t) && t.Branch? && node == t.item.id && Legal(Plug(c, t))
    modifies root, CtxIds(c), Ids(t)
    ensures root.tree == RemoveAt(c, t) && Holds(root, Top, root.tree)
    ensures Ids(root.tree) == CtxIds(c) + Ids(t) - {node}
    ensures unchanged(node)
    ensures root.turns == old(root.turns) + RemoveAtTurns(c, t)
  {
    R.RbRemove(root, node, c, t);
    root.tree := RemoveAt(c, t);
  }

  /** The second half of removal by key: `p` is what the search returned. */
  method RemovePlace(root: Root, p: RbNode?, key: int)
    requires Valid(root) && p == NodeAt(Seek(root.tree, key, Top))
    modifies root, Ids(root.tree)
    ensures Holds(root, Top, root.tree) && root.tree == Removed(old(root.tree), key)
    ensures Ids(root.tree) == if p == null then Ids(old(root.tree)) else Ids(old(root.tree)) - {p}
    ensures root.turns == old(root.turns) + CallTurns(old(root.tree), Remove(key))
    ensures p != null ==> unchanged(p)
  {
    ghost var t := root.tree;
    ghost var place := Seek(t, key, Top);
    SeekOrder(t, key);
    if p != null {
      HoldsMoved(root, Top, t, place.ctx, place.focus);
      RemoveFound(root, p, place.ctx, place.focus);
    }
  }

  /** Remove finds the key and removes its node; an absent key changes nothing. */
  method RbRemoveKey(root: Root, key: int) returns (p: RbNode?)
    requires Valid(root)
    modifies root, Ids(root.tree)
    ensures Valid(root) && root.tree == Removed(old(root.tree), key)
    ensures p == if key in old(Map(root)) then old(Map(root))[key] else null
    ensures Map(root) == old(Map(root)) - {key}
    ensures Ids(root.tree) == if key in old(Map(root)) then Ids(old(root.tree)) - {p} else Ids(old(root.tree))
    ensures root.turns == old(root.turns) + CallTurns(old(root.tree), Remove(key))
  {
    ghost var t := root.tree;
    IdsAllocated(t);
    p := RbFind(root, key);
    RemovedIsCorrect(t, key);
    RemovePlace(root, p, key);
  }

  // ---------- iteration ----------

  /** Repeated next from the node of rank `i` meets every later node once, in order, and then null. */
  method VisitFrom(root: Root, start: RbNode?, d: Dir, ghost start': Place<RbNode>, ghost i: nat)
    returns (visited: seq<RbNode>)
    requires Valid(root) && start == NodeAt(start')
    requires i <= |Walk(root.tree, d)| && PlaceOf(start', root.tree, d, i)
    ensures SeenToEnd(visited, Walk(root.tree, d), i)
  {
    IdsAllocated(root.tree);
    visited := [];
    var p := start;
    ghost var place := start';
    while p != null
      invariant Seen(visited, Walk(root.tree, d), i) && PlaceOf(place, root.tree, d, i + |visited|)
      invariant p == NodeAt(place) && Valid(root)
      decreases |Walk(root.tree, d)| - |visited|
    {
      HoldsPlug(root, place.ctx, place.focus);
      StepIsNext(place.ctx, place.focus, d);
      SeeOneMore(visited, Walk(root.tree, d), i, p);
      visited := visited + [p];
      p := RbIterNext(root, p, d, place);
      place := Step(place.ctx, place.focus, d);
    }
  }

  /** First, then next to the end (or, for Left, last and then previous): every node once, in order. */
  method VisitAll(root: Root, d: Dir) returns (visited: seq<RbNode>)
    requires Valid(root)
    ensures SeenToEnd(visited, Walk(root.tree, d), 0)
  {
    IdsAllocated(root.tree);
    EndIsFirst(root.tree, d.Flip());
    var p := RbIter(root, d.Flip(), root.tree);
    visited := VisitFrom(root, p, d, EndOf(root.tree, d.Flip()), 0);
  }

  /** From a found key, next to the end meets exactly the nodes from that key on. */
  method VisitFromKey(root: Root, key: int, d: Dir) returns (visited: seq<RbNode>)
    requires Valid(root) && key in Map(root)
    ensures exists i :: 0 <= i < |Walk(root.tree, d)| && Walk(root.tree, d)[i].key == key
                     && SeenToEnd(visited, Walk(root.tree, d), i)
  {
    ghost var place := Seek(root.tree, key, Top);
    SeekOrder(root.tree, key);
    RankIsPlace(place.ctx, place.focus, d);
    ghost var i := Rank(place.ctx, place.focus, d);
    IdsAllocated(root.tree);
    var p := RbFind(root, key);
    visited := VisitFrom(root, p, d, place, i);
  }
}
