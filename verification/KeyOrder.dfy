/** Why integer keys are enough. A run compares keys only with the comparator it is given, which orders
    them strictly and totally. Label every key of the run with its rank: the run by comparator is the run
    by labels. */
module KeyOrder {
  import opened Trees
  import opened Zippers
  import opened IterSpec
  import opened InsertSpec
  import opened RemoveSpec
  import opened SortedItems
  import opened SearchSpec
  import opened RunMeaning

  ghost predicate StrictTotalOrder<K(!new)>(less: (K, K) -> bool) {
    && (forall a :: !less(a, a))
    && (forall a, b, c :: less(a, b) && less(b, c) ==> less(a, c))
    && (forall a, b :: a == b || less(a, b) || less(b, a))
  }

  // ---------- labels ----------

  ghost function Below<K>(keys: set<K>, less: (K, K) -> bool, k: K): set<K> {
    set j | j in keys && less(j, k)
  }

  /** The number of smaller keys. */
  ghost function Rank<K>(keys: set<K>, less: (K, K) -> bool, k: K): nat { |Below(keys, less, k)| }

  lemma SmallerSet<K>(a: set<K>, b: set<K>)
    requires a < b
    ensures |a| < |b|
  {
    assert b == a + (b - a);
    assert b - a != {};
  }

  lemma LessRanksBelow<K(!new)>(keys: set<K>, less: (K, K) -> bool, a: K, b: K)
    requires StrictTotalOrder(less) && a in keys && less(a, b)
    ensures Rank(keys, less, a) < Rank(keys, less, b)
  {
    var s, t := Below(keys, less, a), Below(keys, less, b);
    assert a in t && a !in s;
    assert s <= t;
    SmallerSet(s, t);
  }

  /** Ranks embed every finite strict total order in the integers. */
  lemma RankEmbeds<K(!new)>(keys: set<K>, less: (K, K) -> bool, a: K, b: K)
    requires StrictTotalOrder(less) && a in keys && b in keys
    ensures less(a, b) <==> Rank(keys, less, a) < Rank(keys, less, b)
    ensures a == b <==> Rank(keys, less, a) == Rank(keys, less, b)
  {
    if less(a, b) {
      LessRanksBelow(keys, less, a, b);
    } else if less(b, a) {
      LessRanksBelow(keys, less, b, a);
    }
  }

  // ---------- the calls by comparator ----------

  /** A node with its own key; the item's integer is only its label. */
  datatype Keyed<M, K> = Keyed(node: M, key: K)

  /** The descent as the code makes it: three outcomes of the comparison. */
  ghost function SeekBy<M, K>(t: Tree<Keyed<M, K>>, k: K, less: (K, K) -> bool, up: Ctx<Keyed<M, K>>)
    : (p: Place<Keyed<M, K>>)
    ensures p.At?
    decreases t
  {
    if t.Leaf? then At(up, t)
    else if less(k, t.item.id.key) then SeekBy(t.left, k, less, In(FrameOf(t, Left), up))
    else if less(t.item.id.key, k) then SeekBy(t.right, k, less, In(FrameOf(t, Right), up))
    else At(up, t)
  }

  datatype CallBy<M, K> = InsertBy(x: Keyed<M, K>) | FindBy(k: K) | RemoveBy(k: K)

  function KeyOf<M, K>(call: CallBy<M, K>): K {
    match call
    case InsertBy(x) => x.key
    case FindBy(k) => k
    case RemoveBy(k) => k
  }

  ghost function ApplyBy<M, K>(t: Tree<Keyed<M, K>>, call: CallBy<M, K>, keys: set<K>, less: (K, K) -> bool)
    : (r: (Tree<Keyed<M, K>>, Option<Keyed<M, K>>))
  {
    var p := SeekBy(t, KeyOf(call), less, Top);
    var found := if p.focus.Branch? then Some(p.focus.item.id) else None;
    match call
    case InsertBy(x) =>
      if found.Some? then (t, found)
      else (InsertFix(p.ctx, Single(Item(x, Rank(keys, less, x.key)))), Some(x))
    case FindBy(_) => (t, found)
    case RemoveBy(_) => (if found.Some? then RemoveAt(p.ctx, p.focus) else t, found)
  }

  ghost function RunBy<M, K>(calls: seq<CallBy<M, K>>, keys: set<K>, less: (K, K) -> bool)
    : (Tree<Keyed<M, K>>, seq<Option<Keyed<M, K>>>)
  {
    if calls == [] then (Leaf, [])
    else
      var (t, rs) := RunBy(calls[..|calls| - 1], keys, less);
      var (t', r) := ApplyBy(t, calls[|calls| - 1], keys, less);
      (t', rs + [r])
  }

  // ---------- the same calls by label ----------

  ghost function LabelCall<M, K>(call: CallBy<M, K>, keys: set<K>, less: (K, K) -> bool): Call<Keyed<M, K>> {
    match call
    case InsertBy(x) => Insert(Item(x, Rank(keys, less, x.key)))
    case FindBy(k) => Find(Rank(keys, less, k))
    case RemoveBy(k) => Remove(Rank(keys, less, k))
  }

  ghost function LabelCalls<M, K>(calls: seq<CallBy<M, K>>, keys: set<K>, less: (K, K) -> bool)
    : (r: seq<Call<Keyed<M, K>>>)
    ensures |r| == |calls|
  {
    seq(|calls|, i requires 0 <= i < |calls| => LabelCall(calls[i], keys, less))
  }

  /** Every item carries the rank of its node's key. */
  ghost predicate Labelled<M, K>(s: seq<Item<Keyed<M, K>>>, keys: set<K>, less: (K, K) -> bool) {
    forall i :: 0 <= i < |s| ==> s[i].id.key in keys && s[i].key == Rank(keys, less, s[i].id.key)
  }

  lemma LabelledParts<M, K>(a: seq<Item<Keyed<M, K>>>, x: Item<Keyed<M, K>>, b: seq<Item<Keyed<M, K>>>,
                            keys: set<K>, less: (K, K) -> bool)
    ensures Labelled(a + [x] + b, keys, less)
            <==> Labelled(a, keys, less) && Labelled(b, keys, less)
                 && x.id.key in keys && x.key == Rank(keys, less, x.id.key)
  {
    var s := a + [x] + b;
    assert forall i :: 0 <= i < |a| ==> s[i] == a[i];
    assert s[|a|] == x;
    assert forall i {:trigger b[i]} :: 0 <= i < |b| ==> s[|a| + 1 + i] == b[i];
    assert forall i {:trigger s[i]} :: |a| < i < |s| ==> s[i] == b[i - |a| - 1];
  }

  lemma {:induction false} SeekByIsSeek<M, K(!new)>(t: Tree<Keyed<M, K>>, k: K, keys: set<K>, less: (K, K) -> bool,
                                                    up: Ctx<Keyed<M, K>>)
    requires StrictTotalOrder(less) && k in keys && Labelled(InOrder(t), keys, less)
    ensures SeekBy(t, k, less, up) == Seek(t, Rank(keys, less, k), up)
    decreases t
  {
    if t.Branch? {
      LabelledParts(InOrder(t.left), t.item, InOrder(t.right), keys, less);
      RankEmbeds(keys, less, k, t.item.id.key);
      RankEmbeds(keys, less, t.item.id.key, k);
      SeekByIsSeek(t.left, k, keys, less, In(FrameOf(t, Left), up));
      SeekByIsSeek(t.right, k, keys, less, In(FrameOf(t, Right), up));
    }
  }

  lemma ApplyByIsApply<M, K(!new)>(t: Tree<Keyed<M, K>>, call: CallBy<M, K>, keys: set<K>, less: (K, K) -> bool)
    requires StrictTotalOrder(less) && KeyOf(call) in keys && Good(t) && Labelled(InOrder(t), keys, less)
    ensures ApplyBy(t, call, keys, less) == Apply(t, LabelCall(call, keys, less))
    ensures Labelled(InOrder(Apply(t, LabelCall(call, keys, less)).0), keys, less)
  {
    var k := Rank(keys, less, KeyOf(call));
    SeekByIsSeek(t, KeyOf(call), keys, less, Top);
    var p := Seek(t, k, Top);
    match call
    case InsertBy(x) =>
      if p.focus.Leaf? {
        var b, a := Before(p.ctx, Right), After(p.ctx, Right);
        InsertedOrder(t, Item(x, k));
        LabelledJoin(b, a, keys, less);
        LabelledParts(b, Item(x, k), a, keys, less);
      }
    case FindBy(_) =>
    case RemoveBy(_) =>
      if p.focus.Branch? {
        var b, a := Before(p.ctx, Right) + InOrder(p.focus.left), InOrder(p.focus.right) + After(p.ctx, Right);
        RemovedOrder(t, k);
        LabelledParts(b, p.focus.item, a, keys, less);
        LabelledJoin(b, a, keys, less);
      }
  }

  lemma LabelledJoin<M, K>(a: seq<Item<Keyed<M, K>>>, b: seq<Item<Keyed<M, K>>>, keys: set<K>, less: (K, K) -> bool)
    ensures Labelled(a + b, keys, less) <==> Labelled(a, keys, less) && Labelled(b, keys, less)
  {
    var s := a + b;
    assert forall i :: 0 <= i < |a| ==> s[i] == a[i];
    assert forall i {:trigger b[i]} :: 0 <= i < |b| ==> s[|a| + i] == b[i];
    assert forall i {:trigger s[i]} :: |a| <= i < |s| ==> s[i] == b[i - |a|];
  }

  /** Every run by comparator, over any finite set of keys, is the run by labels: same trees, same answers. */
  lemma {:induction false} RunByIsRun<M, K(!new)>(calls: seq<CallBy<M, K>>, keys: set<K>, less: (K, K) -> bool)
    requires StrictTotalOrder(less) && forall i :: 0 <= i < |calls| ==> KeyOf(calls[i]) in keys
    ensures RunBy(calls, keys, less) == Run(Leaf, LabelCalls(calls, keys, less))
    ensures Good(RunBy(calls, keys, less).0) && Labelled(InOrder(RunBy(calls, keys, less).0), keys, less)
    decreases |calls|
  {
    if calls != [] {
      var init, last := calls[..|calls| - 1], calls[|calls| - 1];
      RunByIsRun(init, keys, less);
      assert LabelCalls(calls, keys, less)[..|calls| - 1] == LabelCalls(init, keys, less);
      var t := RunBy(init, keys, less).0;
      ApplyByIsApply(t, last, keys, less);
      ApplyRefinesMap(t, LabelCall(last, keys, less));
    }
  }

  // ---------- answers, in terms of the keys ----------

  /** The calls before number `n` that insert the key `k` and are followed by no removal of it. */
  ghost function LiveBy<M, K>(calls: seq<CallBy<M, K>>, k: K, n: nat): set<int>
    requires n <= |calls|
  {
    set j | 0 <= j < n && calls[j].InsertBy? && calls[j].x.key == k && forall l :: j < l < n ==> calls[l] != RemoveBy(k)
  }

  /** Call number `i` is about the node that call number `j` brought in. */
  ghost predicate MeetsBy<M, K>(calls: seq<CallBy<M, K>>, i: nat, j: int)
    requires i < |calls|
  {
    var live := LiveBy(calls, KeyOf(calls[i]), if calls[i].InsertBy? then i + 1 else i);
    j in live && forall l :: l in live ==> j <= l
  }

  lemma LiveByIsLive<M, K(!new)>(calls: seq<CallBy<M, K>>, keys: set<K>, less: (K, K) -> bool, k: K, n: nat)
    requires StrictTotalOrder(less) && n <= |calls| && k in keys
    requires forall i :: 0 <= i < |calls| ==> KeyOf(calls[i]) in keys
    ensures Live(LabelCalls(calls, keys, less), Rank(keys, less, k), n) == LiveBy(calls, k, n)
  {
    var labelled, r := LabelCalls(calls, keys, less), Rank(keys, less, k);
    forall i | 0 <= i < |calls|
      ensures labelled[i] == Remove(r) <==> calls[i] == RemoveBy(k)
      ensures labelled[i].Insert? && labelled[i].item.key == r <==> calls[i].InsertBy? && calls[i].x.key == k
    {
      RankEmbeds(keys, less, KeyOf(calls[i]), k);
    }
  }

  /** In a run by comparator every call returns the node that the first insertion of its key brought in
      since the key was last removed, and nothing exactly when there is none. */
  lemma RunByAnswers<M, K(!new)>(calls: seq<CallBy<M, K>>, keys: set<K>, less: (K, K) -> bool, i: nat)
    requires StrictTotalOrder(less) && i < |calls|
    requires forall l :: 0 <= l < |calls| ==> KeyOf(calls[l]) in keys
    ensures var rs := RunBy(calls, keys, less).1;
            && |rs| == |calls|
            && (rs[i].Some? <==> exists j :: MeetsBy(calls, i, j))
            && forall j :: MeetsBy(calls, i, j) ==> rs[i] == Some(calls[j].x)
  {
    var labelled := LabelCalls(calls, keys, less);
    RunByIsRun(calls, keys, less);
    RunAnswers(labelled, i);
    LiveByIsLive(calls, keys, less, KeyOf(calls[i]), if calls[i].InsertBy? then i + 1 else i);
    assert labelled[i] == LabelCall(calls[i], keys, less);
    assert forall j :: Meets(labelled, i, j) <==> MeetsBy(calls, i, j);
  }
}
