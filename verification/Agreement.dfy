/** Whole runs: the compact tree and the parent-pointer tree driven by the same calls. */
module Agreement {
  import opened Trees
  import opened SortedItems
  import opened SearchSpec
  import opened PathCapacity
  import opened Renaming
  import opened RunMeaning
  import C = CompactHeap
  import P = ParentHeap
  import CT = CompactTree
  import PT = ParentTree

  /** Node number `i` of a client's array of nodes. */
  function Pick<N>(nodes: seq<N>): (f: nat -> N)
    requires |nodes| > 0
  {
    (i: nat) => if i < |nodes| then nodes[i] else nodes[0]
  }

  /** The call names a node that the client has, with the key the call states. */
  predicate CompactNames(call: Call<nat>, nodes: seq<C.RbNode>) {
    call.Insert? ==> call.item.id < |nodes| && nodes[call.item.id].key == call.item.key
  }

  predicate ParentNames(call: Call<nat>, nodes: seq<P.RbNode>) {
    call.Insert? ==> call.item.id < |nodes| && nodes[call.item.id].key == call.item.key
  }

  /** The pointers returned so far: null for no node, else the client's node of the answer's number. */
  ghost predicate Answers<N>(outs: seq<N>, rs: seq<Option<nat>>, none: N, f: nat -> N) {
    && |outs| == |rs|
    && forall i :: 0 <= i < |rs| ==> outs[i] == if rs[i].None? then none else f(rs[i].value)
  }

  /** One more call at the end of a run from the empty tree. */
  lemma RunOneMore(calls: seq<Call<nat>>, i: nat)
    requires i < |calls|
    ensures var (t, rs) := Run(Leaf, calls[..i]);
            var (t', r) := Apply(t, calls[i]);
            && Run(Leaf, calls[..i + 1]) == (t', rs + [r])
            && RunTurns(Leaf, calls[..i + 1]) == RunTurns(Leaf, calls[..i]) + CallTurns(t, calls[i])
  {
    assert calls[..i + 1][..i] == calls[..i];
  }

  /** The answers of a run, as numbers of the client's nodes. */
  lemma AnswersNumbered(calls: seq<Call<nat>>, size: nat)
    requires forall i :: 0 <= i < |calls| && calls[i].Insert? ==> calls[i].item.id < size
    ensures var rs := Run(Leaf, calls).1;
            && |rs| == |calls|
            && (forall i :: 0 <= i < |calls| ==> (rs[i].Some? <==> exists j :: Meets(calls, i, j)))
            && (forall i, j :: 0 <= i < |calls| && Meets(calls, i, j) ==> rs[i] == Some(calls[j].item.id))
            && (forall i :: 0 <= i < |calls| && rs[i].Some? ==> rs[i].value < size)
  {
    var rs := Run(Leaf, calls).1;
    EmptyContents<nat>();
    RunRefinesMap<nat>(Leaf, calls);
    assert calls[..|calls|] == calls;
    MapRunLength(calls, |calls|);
    forall i | 0 <= i < |calls|
      ensures rs[i].Some? <==> exists j :: Meets(calls, i, j)
      ensures forall j :: Meets(calls, i, j) ==> rs[i] == Some(calls[j].item.id)
      ensures rs[i].Some? ==> rs[i].value < size
    {
      RunAnswers(calls, i);
      if rs[i].Some? {
        var j :| Meets(calls, i, j);
      }
    }
  }

  // ---------- the compact tree ----------

  /** The heap holds the numbered tree `t`, node number i being `nodes[i]`. */
  ghost predicate CompactHolds(root: C.Root, t: Tree<nat>, nodes: seq<C.RbNode>)
    requires |nodes| > 0
    reads root, Ids(root.tree)
  {
    CT.Valid(root) && root.tree == Rename(t, Pick(nodes)) && forall n :: n in Ids(root.tree) ==> n in nodes
  }

  /** Each key of a live insertion, and no other, leads to the node that was brought in. */
  lemma CompactEntries(root: C.Root, calls: seq<Call<nat>>, nodes: seq<C.RbNode>)
    requires |nodes| > 0 && forall i :: 0 <= i < |calls| ==> CompactNames(calls[i], nodes)
    requires CompactHolds(root, Run(Leaf, calls).0, nodes)
    ensures forall k :: k in CT.Map(root) <==> exists j :: Brought(calls, k, |calls|, j)
    ensures forall k, j :: Brought(calls, k, |calls|, j) ==>
              calls[j].item.id < |nodes| && k in CT.Map(root) && CT.Map(root)[k] == nodes[calls[j].item.id]
  {
    var t := Run(Leaf, calls).0;
    forall k
      ensures k in CT.Map(root) <==> exists j :: Brought(calls, k, |calls|, j)
      ensures forall j :: Brought(calls, k, |calls|, j) ==>
                calls[j].item.id < |nodes| && k in CT.Map(root) && CT.Map(root)[k] == nodes[calls[j].item.id]
    {
      RunContents(calls, k);
      RenameContents(t, Pick(nodes), k);
    }
  }

  method CompactCall(root: C.Root, call: Call<nat>, nodes: seq<C.RbNode>, capacity: nat) returns (r: C.RbNode?)
    requires CT.Valid(root) && CT.RoomFor(capacity, root.tree)
    requires |nodes| > 0 && CompactNames(call, nodes) && forall n :: n in Ids(root.tree) ==> n in nodes
    modifies root, nodes
    ensures CT.Valid(root) && forall n :: n in Ids(root.tree) ==> n in nodes
    ensures var (t', o) := Apply(old(root.tree), RenameCall(call, Pick(nodes)));
            root.tree == t' && r == if o.None? then null else o.value
    ensures root.turns == old(root.turns) + CallTurns(old(root.tree), RenameCall(call, Pick(nodes)))
  {
    C.IdsAllocated(root.tree);
    match call
    case Insert(x) =>
      FoundIsCorrect(root.tree, x.key);
      var p := CT.RbInsert(root, nodes[x.id], capacity);
      r := p;
    case Find(k) =>
      FewNodesFit(root.tree, capacity);
      FoundIsCorrect(root.tree, k);
      assert capacity > 0;
      var rp := new C.Path(capacity);
      r := CT.RbFind(root, k, rp);
    case Remove(k) =>
      FoundIsCorrect(root.tree, k);
      r := CT.RbRemoveKey(root, k, capacity);
  }

  method CompactStep(root: C.Root, call: Call<nat>, nodes: seq<C.RbNode>, capacity: nat, ghost t: Tree<nat>)
    returns (r: C.RbNode?)
    requires |nodes| > 0 && CompactNames(call, nodes) && CompactHolds(root, t, nodes) && CT.RoomFor(capacity, t)
    modifies root, nodes
    ensures var (t', o) := Apply(t, call);
            CompactHolds(root, t', nodes) && r == if o.None? then null else Pick(nodes)(o.value)
    ensures root.turns == old(root.turns) + CallTurns(t, call)
  {
    RenameSize(t, Pick(nodes));
    RenameApply(t, call, Pick(nodes));
    RenameCallTurns(t, call, Pick(nodes));
    r := CompactCall(root, call, nodes, capacity);
  }

  /** Before every call few enough keys are present for a stack of this capacity. Calls that find or
      remove, and calls that insert a present key, do not add to them. */
  ghost predicate RoomDuring(capacity: nat, calls: seq<Call<nat>>) {
    capacity % 2 == 0 && forall i :: 0 <= i < |calls| ==> KeysBefore(calls, i) + 2 < Pow2(capacity / 2 + 1)
  }

  ghost function KeysBefore(calls: seq<Call<nat>>, i: nat): nat
    requires i <= |calls|
  {
    |MapRun<nat>(map[], calls[..i]).0|
  }

  /** The compact tree, from empty, through any run for which the stack has room. */
  method RunCompact(calls: seq<Call<nat>>, nodes: seq<C.RbNode>, capacity: nat)
    returns (root: C.Root, outs: seq<C.RbNode?>)
    requires |nodes| > 0 && forall i :: 0 <= i < |calls| ==> CompactNames(calls[i], nodes)
    requires RoomDuring(capacity, calls)
    modifies nodes
    ensures fresh(root) && CompactHolds(root, Run(Leaf, calls).0, nodes)
    ensures |outs| == |Run(Leaf, calls).1| == |calls|
    ensures forall i :: 0 <= i < |calls| ==>
              var r := Run(Leaf, calls).1[i];
              (outs[i] == null <==> r.None?) && (r.Some? ==> r.value < |nodes| && outs[i] == nodes[r.value])
    ensures forall i :: 0 <= i < |calls| ==> (outs[i] != null <==> exists j :: Meets(calls, i, j))
    ensures forall i, j :: 0 <= i < |calls| && Meets(calls, i, j) ==>
              calls[j].item.id < |nodes| && outs[i] == nodes[calls[j].item.id]
    ensures forall k :: k in CT.Map(root) <==> exists j :: Brought(calls, k, |calls|, j)
    ensures forall k, j :: Brought(calls, k, |calls|, j) ==>
              calls[j].item.id < |nodes| && k in CT.Map(root) && CT.Map(root)[k] == nodes[calls[j].item.id]
    ensures root.turns == RunTurns(Leaf, calls)
  {
    root := new C.Root();
    outs := [];
    ghost var t, rs := Leaf, [];
    var i := 0;
    while i < |calls|
      invariant 0 <= i <= |calls| && fresh(root) && Run(Leaf, calls[..i]) == (t, rs)
      invariant CompactHolds(root, t, nodes) && Answers<C.RbNode?>(outs, rs, null, Pick(nodes))
      invariant root.turns == RunTurns(Leaf, calls[..i])
    {
      RunSize(calls[..i]);
      RunOneMore(calls, i);
      assert KeysBefore(calls, i) + 2 < Pow2(capacity / 2 + 1);
      var r := CompactStep(root, calls[i], nodes, capacity, t);
      outs := outs + [r];
      t, rs := Apply(t, calls[i]).0, rs + [Apply(t, calls[i]).1];
      i := i + 1;
    }
    assert calls[..|calls|] == calls;
    AnswersNumbered(calls, |nodes|);
    CompactEntries(root, calls, nodes);
  }

  // ---------- the parent-pointer tree ----------

  ghost predicate ParentHolds(root: P.Root, t: Tree<nat>, nodes: seq<P.RbNode>)
    requires |nodes| > 0
    reads root, Ids(root.tree)
  {
    PT.Valid(root) && root.tree == Rename(t, Pick(nodes)) && forall n :: n in Ids(root.tree) ==> n in nodes
  }

  /** Each key of a live insertion, and no other, leads to the node that was brought in. */
  lemma ParentEntries(root: P.Root, calls: seq<Call<nat>>, nodes: seq<P.RbNode>)
    requires |nodes| > 0 && forall i :: 0 <= i < |calls| ==> ParentNames(calls[i], nodes)
    requires ParentHolds(root, Run(Leaf, calls).0, nodes)
    ensures forall k :: k in PT.Map(root) <==> exists j :: Brought(calls, k, |calls|, j)
    ensures forall k, j :: Brought(calls, k, |calls|, j) ==>
              calls[j].item.id < |nodes| && k in PT.Map(root) && PT.Map(root)[k] == nodes[calls[j].item.id]
  {
    var t := Run(Leaf, calls).0;
    forall k
      ensures k in PT.Map(root) <==> exists j :: Brought(calls, k, |calls|, j)
      ensures forall j :: Brought(calls, k, |calls|, j) ==>
                calls[j].item.id < |nodes| && k in PT.Map(root) && PT.Map(root)[k] == nodes[calls[j].item.id]
    {
      RunContents(calls, k);
      RenameContents(t, Pick(nodes), k);
    }
  }

  method ParentCall(root: P.Root, call: Call<nat>, nodes: seq<P.RbNode>) returns (r: P.RbNode?)
    requires PT.Valid(root)
    requires |nodes| > 0 && ParentNames(call, nodes) && forall n :: n in Ids(root.tree) ==> n in nodes
    modifies root, nodes
    ensures PT.Valid(root) && forall n :: n in Ids(root.tree) ==> n in nodes
    ensures var (t', o) := Apply(old(root.tree), RenameCall(call, Pick(nodes)));
            root.tree == t' && r == if o.None? then null else o.value
    ensures root.turns == old(root.turns) + CallTurns(old(root.tree), RenameCall(call, Pick(nodes)))
  {
    P.IdsAllocated(root.tree);
    match call
    case Insert(x) =>
      FoundIsCorrect(root.tree, x.key);
      var p := PT.RbInsert(root, nodes[x.id]);
      r := p;
    case Find(k) =>
      FoundIsCorrect(root.tree, k);
      r := PT.RbFind(root, k);
    case Remove(k) =>
      FoundIsCorrect(root.tree, k);
      r := PT.RbRemoveKey(root, k);
  }

  method ParentStep(root: P.Root, call: Call<nat>, nodes: seq<P.RbNode>, ghost t: Tree<nat>) returns (r: P.RbNode?)
    requires |nodes| > 0 && ParentNames(call, nodes) && ParentHolds(root, t, nodes)
    modifies root, nodes
    ensures var (t', o) := Apply(t, call);
            ParentHolds(root, t', nodes) && r == if o.None? then null else Pick(nodes)(o.value)
    ensures root.turns == old(root.turns) + CallTurns(t, call)
  {
    RenameApply(t, call, Pick(nodes));
    RenameCallTurns(t, call, Pick(nodes));
    r := ParentCall(root, call, nodes);
  }

  /** The parent-pointer tree, from empty, through any run. */
  method RunParent(calls: seq<Call<nat>>, nodes: seq<P.RbNode>) returns (root: P.Root, outs: seq<P.RbNode?>)
    requires |nodes| > 0 && forall i :: 0 <= i < |calls| ==> ParentNames(calls[i], nodes)
    modifies nodes
    ensures fresh(root) && ParentHolds(root, Run(Leaf, calls).0, nodes)
    ensures |outs| == |Run(Leaf, calls).1| == |calls|
    ensures forall i :: 0 <= i < |calls| ==>
              var r := Run(Leaf, calls).1[i];
              (outs[i] == null <==> r.None?) && (r.Some? ==> r.value < |nodes| && outs[i] == nodes[r.value])
    ensures forall i :: 0 <= i < |calls| ==> (outs[i] != null <==> exists j :: Meets(calls, i, j))
    ensures forall i, j :: 0 <= i < |calls| && Meets(calls, i, j) ==>
              calls[j].item.id < |nodes| && outs[i] == nodes[calls[j].item.id]
    ensures forall k :: k in PT.Map(root) <==> exists j :: Brought(calls, k, |calls|, j)
    ensures forall k, j :: Brought(calls, k, |calls|, j) ==>
              calls[j].item.id < |nodes| && k in PT.Map(root) && PT.Map(root)[k] == nodes[calls[j].item.id]
    ensures root.turns == RunTurns(Leaf, calls)
  {
    root := new P.Root();
    outs := [];
    ghost var t, rs := Leaf, [];
    var i := 0;
    while i < |calls|
      invariant 0 <= i <= |calls| && fresh(root) && Run(Leaf, calls[..i]) == (t, rs)
      invariant ParentHolds(root, t, nodes) && Answers<P.RbNode?>(outs, rs, null, Pick(nodes))
      invariant root.turns == RunTurns(Leaf, calls[..i])
    {
      RunOneMore(calls, i);
      var r := ParentStep(root, calls[i], nodes, t);
      outs := outs + [r];
      t, rs := Apply(t, calls[i]).0, rs + [Apply(t, calls[i]).1];
      i := i + 1;
    }
    assert calls[..|calls|] == calls;
    AnswersNumbered(calls, |nodes|);
    ParentEntries(root, calls, nodes);
  }

  // ---------- both ----------

  /** The same shape, colours and keys. */
  ghost predicate Twins(a: Tree<C.RbNode>, b: Tree<P.RbNode>) {
    if a.Leaf? then b.Leaf?
    else
      && b.Branch? && a.color == b.color && a.item.key == b.item.key
      && Twins(a.left, b.left) && Twins(a.right, b.right)
  }

  lemma {:induction false} RenamedTwins(t: Tree<nat>, f: nat -> C.RbNode, g: nat -> P.RbNode)
    ensures Twins(Rename(t, f), Rename(t, g))
  {
    if t.Branch? {
      RenamedTwins(t.left, f, g);
      RenamedTwins(t.right, f, g);
    }
  }

  /** Both implementations, from empty trees, through the same calls. Number the nodes alike on both
      sides. Then the two trees have the same shape, colours and keys, every call returned the node of
      the same number on both sides, the one that its key stands for, and both made the same number of
      rotations. */
  method RunBoth(calls: seq<Call<nat>>, cs: seq<C.RbNode>, ps: seq<P.RbNode>, capacity: nat)
    returns (c: C.Root, p: P.Root, couts: seq<C.RbNode?>, pouts: seq<P.RbNode?>)
    requires |cs| > 0 && |ps| > 0
    requires forall i :: 0 <= i < |calls| ==> CompactNames(calls[i], cs) && ParentNames(calls[i], ps)
    requires RoomDuring(capacity, calls)
    modifies cs, ps
    ensures CT.Valid(c) && PT.Valid(p) && Twins(c.tree, p.tree)
    ensures |couts| == |pouts| == |Run(Leaf, calls).1| == |calls|
    ensures forall i :: 0 <= i < |calls| ==>
              var r := Run(Leaf, calls).1[i];
              && (couts[i] == null <==> r.None?) && (pouts[i] == null <==> r.None?)
              && (r.Some? ==> r.value < |cs| && couts[i] == cs[r.value] && r.value < |ps| && pouts[i] == ps[r.value])
    ensures forall i :: 0 <= i < |calls| ==>
              (couts[i] != null <==> exists j :: Meets(calls, i, j)) && (couts[i] != null <==> pouts[i] != null)
    ensures forall i, j :: 0 <= i < |calls| && Meets(calls, i, j) ==>
              var n := calls[j].item.id;
              n < |cs| && couts[i] == cs[n] && n < |ps| && pouts[i] == ps[n]
    ensures forall k :: k in CT.Map(c) <==> exists j :: Brought(calls, k, |calls|, j)
    ensures forall k, j :: Brought(calls, k, |calls|, j) ==>
              var n := calls[j].item.id;
              && n < |cs| && k in CT.Map(c) && CT.Map(c)[k] == cs[n]
              && n < |ps| && k in PT.Map(p) && PT.Map(p)[k] == ps[n]
    ensures forall k :: k in CT.Map(c) <==> k in PT.Map(p)
    ensures c.turns == p.turns
            <= 2 * |set i | 0 <= i < |calls| && calls[i].Insert?| + 3 * |set i | 0 <= i < |calls| && calls[i].Remove?|
  {
    c, couts := RunCompact(calls, cs, capacity);
    p, pouts := RunParent(calls, ps);
    RenamedTwins(Run(Leaf, calls).0, Pick(cs), Pick(ps));
    RunTurnsBound(Leaf, calls);
  }
}
