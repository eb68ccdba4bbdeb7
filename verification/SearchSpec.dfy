/** Search by key and the generated calls insert, find and remove, on values: what they do to the
    tree, and why that is what a finite map does. */
module SearchSpec {
  import opened Trees
  import opened Zippers
  import opened IterSpec
  import opened InsertSpec
  import opened RemoveSpec
  import opened SortedItems

  // ---------- search ----------

  /** The direction a search for `k` leaves a node with another key. */
  function Toward(k: int, here: int): Dir { if k < here then Left else Right }

  /** The place of key `k`: the branch that holds it, or the leaf where it would hang. */
  function Seek<N>(t: Tree<N>, k: int, up: Ctx<N>): (p: Place<N>)
    ensures p.At? && (p.focus.Branch? ==> p.focus.item.key == k)
    decreases t
  {
    if t.Leaf? || t.item.key == k then At(up, t)
    else
      var d := Toward(k, t.item.key);
      Seek(t.Child(d), k, In(FrameOf(t, d), up))
  }

  /** Everything left of the place has a smaller key and everything right of it a greater one. */
  ghost predicate Splits<N>(c: Ctx<N>, k: int) {
    AllBelow(Before(c, Right), k) && AllAbove(After(c, Right), k)
  }

  lemma {:induction false} SeekSplits<N>(t: Tree<N>, k: int, up: Ctx<N>)
    requires Sorted(InOrder(Plug(up, t))) && Splits(up, k)
    ensures var p := Seek(t, k, up);
            Plug(p.ctx, p.focus) == Plug(up, t) && Splits(p.ctx, k)
    decreases t
  {
    if t.Branch? && t.item.key != k {
      var d := Toward(k, t.item.key);
      FocusOrder(up, t);
      SortedConcat(Before(up, Right) + InOrder(t.left), t.item, InOrder(t.right) + After(up, Right));
      StepSplits(t, k, up);
      SeekSplits(t.Child(d), k, In(FrameOf(t, d), up));
    }
  }

  lemma StepSplits<N>(t: Tree<N>, k: int, up: Ctx<N>)
    requires t.Branch? && t.item.key != k && Splits(up, k)
    requires AllBelow(Before(up, Right) + InOrder(t.left), t.item.key)
    requires AllAbove(InOrder(t.right) + After(up, Right), t.item.key)
    ensures Splits(In(FrameOf(t, Toward(k, t.item.key)), up), k)
  {
    var l, r, b, a := InOrder(t.left), InOrder(t.right), Before(up, Right), After(up, Right);
    assert forall i {:trigger l[i]} :: 0 <= i < |l| ==> (b + l)[|b| + i] == l[i];
    assert forall i {:trigger r[i]} :: 0 <= i < |r| ==> (r + a)[i] == r[i];
  }

  /** On a hit the sequence splits at the found node; on a miss the key occurs nowhere. */
  lemma SeekOrder<N>(t: Tree<N>, k: int)
    requires Sorted(InOrder(t))
    ensures var p := Seek(t, k, Top);
            && Plug(p.ctx, p.focus) == t
            && if p.focus.Branch? then
                 k in Contents(InOrder(t)) && Contents(InOrder(t))[k] == p.focus.item.id
               else
                 && k !in Contents(InOrder(t))
                 && InOrder(t) == Before(p.ctx, Right) + After(p.ctx, Right)
                 && AllBelow(Before(p.ctx, Right), k) && AllAbove(After(p.ctx, Right), k)
  {
    SeekSplits(t, k, Top);
    var p := Seek(t, k, Top);
    if p.focus.Branch? {
      FocusOrder(p.ctx, p.focus);
      var i := |Before(p.ctx, Right) + InOrder(p.focus.left)|;
      assert InOrder(t)[i] == p.focus.item;
    } else {
      WalkPlug(p.ctx, p.focus, Right);
      assert Before(p.ctx, Right) + [] + After(p.ctx, Right) == Before(p.ctx, Right) + After(p.ctx, Right);
    }
  }

  // ---------- the generated calls ----------

  /** A new node as insertion hangs it in: red, without children. */
  function Single<N>(x: Item<N>): Tree<N> { Branch(Leaf, x, Red, Leaf) }

  function Inserted<N>(t: Tree<N>, x: Item<N>): Tree<N> {
    var p := Seek(t, x.key, Top);
    if p.focus.Branch? then t else InsertFix(p.ctx, Single(x))
  }

  function Removed<N>(t: Tree<N>, k: int): Tree<N> {
    var p := Seek(t, k, Top);
    if p.focus.Branch? then RemoveAt(p.ctx, p.focus) else t
  }

  function Found<N>(t: Tree<N>, k: int): Option<N> {
    var p := Seek(t, k, Top);
    if p.focus.Branch? then Some(p.focus.item.id) else None
  }

  /** A search tree that obeys the red-black laws. */
  ghost predicate Good<N>(t: Tree<N>) { Legal(t) && Sorted(InOrder(t)) }

  /** On a miss the new node enters between the two halves of the sequence. */
  lemma InsertedOrder<N>(t: Tree<N>, x: Item<N>)
    requires Good(t) && Seek(t, x.key, Top).focus.Leaf?
    ensures var p := Seek(t, x.key, Top);
            && InOrder(t) == Before(p.ctx, Right) + After(p.ctx, Right)
            && InOrder(Inserted(t, x)) == Before(p.ctx, Right) + [x] + After(p.ctx, Right)
            && Sorted(InOrder(Inserted(t, x)))
  {
    var p := Seek(t, x.key, Top);
    SeekOrder(t, x.key);
    InsertFixKeepsOrder(p.ctx, Single(x));
    assert Walk(Single(x), Right) == [] + [x] + [];
    SortedPair(Before(p.ctx, Right), x, After(p.ctx, Right));
  }

  /** Insertion keeps all laws; a new key enters at its sorted place, a present key changes nothing. */
  lemma InsertedIsCorrect<N>(t: Tree<N>, x: Item<N>)
    requires Good(t)
    ensures Good(Inserted(t, x))
    ensures x.key in Contents(InOrder(t)) ==> Inserted(t, x) == t
    ensures x.key !in Contents(InOrder(t)) ==>
              && (exists i :: 0 <= i <= |InOrder(t)|
                          && InOrder(Inserted(t, x)) == InOrder(t)[..i] + [x] + InOrder(t)[i..])
              && Contents(InOrder(Inserted(t, x))) == Contents(InOrder(t))[x.key := x.id]
  {
    var p := Seek(t, x.key, Top);
    SeekOrder(t, x.key);
    if p.focus.Leaf? {
      PlugLegal(p.ctx, Leaf);
      InsertFixIsLegal(p.ctx, Single(x));
      InsertedOrder(t, x);
      var b, a := Before(p.ctx, Right), After(p.ctx, Right);
      ContentsSplit(b, x, a);
      assert InOrder(t)[..|b|] == b && InOrder(t)[|b|..] == a;
    }
  }

  /** On a hit the found node leaves the sequence from between its two halves. */
  lemma RemovedOrder<N>(t: Tree<N>, k: int)
    requires Good(t) && Seek(t, k, Top).focus.Branch?
    ensures var p := Seek(t, k, Top);
            var b, a := Before(p.ctx, Right) + InOrder(p.focus.left), InOrder(p.focus.right) + After(p.ctx, Right);
            && InOrder(t) == b + [p.focus.item] + a && InOrder(Removed(t, k)) == b + a && Legal(Removed(t, k))
  {
    var p := Seek(t, k, Top);
    SeekOrder(t, k);
    RemoveAtIsCorrect(p.ctx, p.focus);
  }

  lemma CutOut<T>(b: seq<T>, x: T, a: seq<T>)
    ensures (b + [x] + a)[|b|] == x && (b + [x] + a)[..|b|] == b && (b + [x] + a)[|b| + 1..] == a
  {
  }

  /** Removal at any place takes out the item of that place's rank. */
  lemma RemovedAtRank<N>(c: Ctx<N>, t: Tree<N>)
    requires t.Branch? && Good(Plug(c, t))
    ensures Good(RemoveAt(c, t))
    ensures var w, i := InOrder(Plug(c, t)), Rank(c, t, Right);
            i < |w| && InOrder(RemoveAt(c, t)) == w[..i] + w[i + 1..]
  {
    var b, a := Before(c, Right) + InOrder(t.left), InOrder(t.right) + After(c, Right);
    RemoveAtIsCorrect(c, t);
    SortedPair(b, t.item, a);
    CutOut(b, t.item, a);
  }

  /** Removal keeps all laws and takes exactly the node with the given key out of the sequence. */
  lemma RemovedIsCorrect<N>(t: Tree<N>, k: int)
    requires Good(t)
    ensures Good(Removed(t, k))
    ensures k !in Contents(InOrder(t)) ==> Removed(t, k) == t
    ensures k in Contents(InOrder(t)) ==>
              exists i :: 0 <= i < |InOrder(t)| && InOrder(t)[i] == Item(Contents(InOrder(t))[k], k)
                       && InOrder(Removed(t, k)) == InOrder(t)[..i] + InOrder(t)[i + 1..]
    ensures Contents(InOrder(Removed(t, k))) == Contents(InOrder(t)) - {k}
  {
    var p := Seek(t, k, Top);
    SeekOrder(t, k);
    if p.focus.Branch? {
      var b, a := Before(p.ctx, Right) + InOrder(p.focus.left), InOrder(p.focus.right) + After(p.ctx, Right);
      RemovedOrder(t, k);
      ContentsSplit(b, p.focus.item, a);
      CutOut(b, p.focus.item, a);
    } else {
      assert Contents(InOrder(t)) - {k} == Contents(InOrder(t));
    }
  }

  /** Find returns a node exactly when its key is present, and then the node stored under it. */
  lemma FoundIsCorrect<N>(t: Tree<N>, k: int)
    requires Sorted(InOrder(t))
    ensures Found(t, k) == if k in Contents(InOrder(t)) then Some(Contents(InOrder(t))[k]) else None
  {
    SeekOrder(t, k);
  }

  // ---------- runs ----------

  datatype Call<N> = Insert(item: Item<N>) | Find(key: int) | Remove(key: int)

  /** What a call does to the tree and the node it returns. */
  function Apply<N>(t: Tree<N>, call: Call<N>): (Tree<N>, Option<N>) {
    match call
    case Insert(x) => (Inserted(t, x), if Found(t, x.key).Some? then Found(t, x.key) else Some(x.id))
    case Find(k) => (t, Found(t, k))
    case Remove(k) => (Removed(t, k), Found(t, k))
  }

  /** What the same call means for a finite map. */
  function MapApply<N>(m: map<int, N>, call: Call<N>): (map<int, N>, Option<N>) {
    match call
    case Insert(x) => if x.key in m then (m, Some(m[x.key])) else (m[x.key := x.id], Some(x.id))
    case Find(k) => (m, if k in m then Some(m[k]) else None)
    case Remove(k) => (m - {k}, if k in m then Some(m[k]) else None)
  }

  /** The rotations of a call. */
  function CallTurns<N>(t: Tree<N>, call: Call<N>): nat {
    match call
    case Insert(x) => var p := Seek(t, x.key, Top); if p.focus.Branch? then 0 else InsertTurns(p.ctx, Single(x))
    case Find(_) => 0
    case Remove(k) => var p := Seek(t, k, Top); if p.focus.Branch? then RemoveAtTurns(p.ctx, p.focus) else 0
  }

  /** Two rotations for an insertion and three for a removal are enough. */
  lemma CallTurnsBound<N>(t: Tree<N>, call: Call<N>)
    ensures CallTurns(t, call) <= if call.Insert? then 2 else if call.Remove? then 3 else 0
  {
    match call
    case Insert(x) =>
      InsertTurnsAtMostTwo(Seek(t, x.key, Top).ctx, Single(x));
    case Find(_) =>
    case Remove(k) =>
      var p := Seek(t, k, Top);
      if p.focus.Branch? {
        RemoveTurnsAtMostThree(SplicedCtx(p.ctx, p.focus), Remainder(Spliced(p.focus)));
      }
  }

  function Run<N>(t: Tree<N>, calls: seq<Call<N>>): (Tree<N>, seq<Option<N>>) {
    if calls == [] then (t, [])
    else
      var (t', rs) := Run(t, calls[..|calls| - 1]);
      var (t'', r) := Apply(t', calls[|calls| - 1]);
      (t'', rs + [r])
  }

  /** The rotations of a run. */
  function RunTurns<N>(t: Tree<N>, calls: seq<Call<N>>): nat {
    if calls == [] then 0
    else
      var init, last := calls[..|calls| - 1], calls[|calls| - 1];
      RunTurns(t, init) + CallTurns(Run(t, init).0, last)
  }

  function MapRun<N>(m: map<int, N>, calls: seq<Call<N>>): (map<int, N>, seq<Option<N>>) {
    if calls == [] then (m, [])
    else
      var (m', rs) := MapRun(m, calls[..|calls| - 1]);
      var (m'', r) := MapApply(m', calls[|calls| - 1]);
      (m'', rs + [r])
  }

  lemma ApplyRefinesMap<N>(t: Tree<N>, call: Call<N>)
    requires Good(t)
    ensures var (t', r) := Apply(t, call);
            Good(t') && (Contents(InOrder(t')), r) == MapApply(Contents(InOrder(t)), call)
  {
    match call
    case Insert(x) =>
      InsertedIsCorrect(t, x);
      FoundIsCorrect(t, x.key);
    case Find(k) =>
      FoundIsCorrect(t, k);
    case Remove(k) =>
      RemovedIsCorrect(t, k);
      FoundIsCorrect(t, k);
  }

  /** Every run of calls keeps a legal search tree and answers like the finite map. */
  lemma {:induction false} RunRefinesMap<N>(t: Tree<N>, calls: seq<Call<N>>)
    requires Good(t)
    ensures var (t', rs) := Run(t, calls);
            Good(t') && (Contents(InOrder(t')), rs) == MapRun(Contents(InOrder(t)), calls)
    decreases |calls|
  {
    if calls != [] {
      var init := calls[..|calls| - 1];
      RunRefinesMap(t, init);
      ApplyRefinesMap(Run(t, init).0, calls[|calls| - 1]);
    }
  }

  lemma CountOneMore<N>(calls: seq<Call<N>>)
    requires calls != []
    ensures var n, init := |calls| - 1, calls[..|calls| - 1];
            && |set i | 0 <= i < |calls| && calls[i].Insert?|
               == |set i | 0 <= i < n && init[i].Insert?| + (if calls[n].Insert? then 1 else 0)
            && |set i | 0 <= i < |calls| && calls[i].Remove?|
               == |set i | 0 <= i < n && init[i].Remove?| + (if calls[n].Remove? then 1 else 0)
  {
    var n, init := |calls| - 1, calls[..|calls| - 1];
    var inserts, removes := set i | 0 <= i < n && init[i].Insert?, set i | 0 <= i < n && init[i].Remove?;
    assert (set i | 0 <= i < |calls| && calls[i].Insert?) == inserts + if calls[n].Insert? then {n} else {};
    assert (set i | 0 <= i < |calls| && calls[i].Remove?) == removes + if calls[n].Remove? then {n} else {};
  }

  /** A run makes at most two rotations for each insertion and three for each removal. */
  lemma {:induction false} RunTurnsBound<N>(t: Tree<N>, calls: seq<Call<N>>)
    ensures RunTurns(t, calls)
            <= 2 * |set i | 0 <= i < |calls| && calls[i].Insert?| + 3 * |set i | 0 <= i < |calls| && calls[i].Remove?|
  {
    if calls != [] {
      var init, last := calls[..|calls| - 1], calls[|calls| - 1];
      RunTurnsBound(t, init);
      CallTurnsBound(Run(t, init).0, last);
      CountOneMore(calls);
    }
  }
}
