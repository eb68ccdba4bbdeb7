/** Sequences of items in strictly ascending key order, and the finite map such a sequence stands for. */
module SortedItems {
  import opened Trees

  datatype Option<+T> = None | Some(value: T)

  // ---------- sorted sequences of items ----------

  /** Strictly ascending keys. */
  ghost predicate Sorted<N>(s: seq<Item<N>>) {
    forall i, j :: 0 <= i < j < |s| ==> s[i].key < s[j].key
  }

  ghost predicate AllBelow<N>(s: seq<Item<N>>, k: int) {
    forall i :: 0 <= i < |s| ==> s[i].key < k
  }

  ghost predicate AllAbove<N>(s: seq<Item<N>>, k: int) {
    forall i :: 0 <= i < |s| ==> k < s[i].key
  }

  lemma SortedConcat<N>(a: seq<Item<N>>, x: Item<N>, b: seq<Item<N>>)
    ensures Sorted(a + [x] + b) <==> Sorted(a) && Sorted(b) && AllBelow(a, x.key) && AllAbove(b, x.key)
  {
    var s := a + [x] + b;
    if Sorted(s) {
      assert forall i :: 0 <= i < |a| ==> s[i] == a[i];
      assert s[|a|] == x;
      assert forall i {:trigger b[i]} :: 0 <= i < |b| ==> s[|a| + 1 + i] == b[i];
    }
  }

  lemma SortedPair<N>(a: seq<Item<N>>, x: Item<N>, b: seq<Item<N>>)
    ensures Sorted(a + [x] + b) ==> Sorted(a + b)
    ensures Sorted(a + b) && AllBelow(a, x.key) && AllAbove(b, x.key) ==> Sorted(a + [x] + b)
  {
    SortedConcat(a, x, b);
    var s := a + b;
    assert forall i :: 0 <= i < |a| ==> s[i] == a[i];
    assert forall i {:trigger b[i]} :: 0 <= i < |b| ==> s[|a| + i] == b[i];
    assert forall i :: |a| <= i < |s| ==> s[i] == b[i - |a|];
  }

  // ---------- the finite map ----------

  /** The finite map from keys to node objects that a sorted sequence stands for. */
  ghost function Contents<N>(s: seq<Item<N>>): map<int, N>
    requires Sorted(s)
  {
    map i | 0 <= i < |s| :: s[i].key := s[i].id
  }

  lemma ContentsAt<N>(s: seq<Item<N>>, i: int)
    requires Sorted(s) && 0 <= i < |s|
    ensures s[i].key in Contents(s) && Contents(s)[s[i].key] == s[i].id
  {
  }

  lemma ContentsIndex<N>(s: seq<Item<N>>, k: int) returns (i: int)
    requires Sorted(s) && k in Contents(s)
    ensures 0 <= i < |s| && s[i].key == k && Contents(s)[k] == s[i].id
  {
    i :| 0 <= i < |s| && s[i].key == k;
    ContentsAt(s, i);
  }

  lemma KeptKey<N>(a: seq<Item<N>>, x: Item<N>, b: seq<Item<N>>, k: int)
    requires Sorted(a + [x] + b) && Sorted(a + b) && k in Contents(a + b)
    ensures k != x.key && k in Contents(a + [x] + b) && Contents(a + [x] + b)[k] == Contents(a + b)[k]
  {
    var i := ContentsIndex(a + b, k);
    var s, j := a + [x] + b, if i < |a| then i else i + 1;
    assert s[j] == (a + b)[i] && s[|a|] == x;
    ContentsAt(s, j);
  }

  lemma OtherKey<N>(a: seq<Item<N>>, x: Item<N>, b: seq<Item<N>>, k: int)
    requires Sorted(a + [x] + b) && Sorted(a + b) && k in Contents(a + [x] + b)
    ensures k == x.key || k in Contents(a + b)
  {
    var i := ContentsIndex(a + [x] + b, k);
    if i != |a| {
      var t, j := a + b, if i < |a| then i else i - 1;
      assert t[j] == (a + [x] + b)[i];
      ContentsAt(t, j);
    }
  }

  /** Taking one item out of a sorted sequence takes exactly its key out of the map. */
  lemma ContentsSplit<N>(a: seq<Item<N>>, x: Item<N>, b: seq<Item<N>>)
    requires Sorted(a + [x] + b)
    ensures Sorted(a + b) && x.key !in Contents(a + b)
    ensures Contents(a + [x] + b) == Contents(a + b)[x.key := x.id]
    ensures Contents(a + b) == Contents(a + [x] + b) - {x.key}
  {
    SortedPair(a, x, b);
    assert (a + [x] + b)[|a|] == x;
    ContentsAt(a + [x] + b, |a|);
    forall k | k in Contents(a + b)
      ensures k != x.key && k in Contents(a + [x] + b) && Contents(a + [x] + b)[k] == Contents(a + b)[k]
    {
      KeptKey(a, x, b, k);
    }
    forall k | k in Contents(a + [x] + b)
      ensures k == x.key || k in Contents(a + b)
    {
      OtherKey(a, x, b, k);
    }
  }

  /** A sorted sequence stands for a map of as many keys. */
  lemma {:induction false} ContentsSize<N>(s: seq<Item<N>>)
    requires Sorted(s)
    ensures |Contents(s)| == |s|
    decreases |s|
  {
    if s != [] {
      var init, x := s[..|s| - 1], s[|s| - 1];
      assert s == init + [x] + [] && init == init + [];
      ContentsSplit(init, x, []);
      ContentsSize(init);
    }
  }
}
