/** What the answers of a whole run are, read off the calls alone: a call meets the node that the first
    insertion of its key brought in since the key was last removed. */
module RunMeaning {
  import opened Trees
  import opened SortedItems
  import opened SearchSpec
  import opened PathCapacity

  /** The calls before number `n` that insert the key `k` and are followed by no removal of it. */
  ghost function Live<N>(calls: seq<Call<N>>, k: int, n: nat): set<int>
    requires n <= |calls|
  {
    set j | 0 <= j < n && calls[j].Insert? && calls[j].item.key == k && forall l :: j < l < n ==> calls[l] != Remove(k)
  }

  /** The first of them: its node is in the tree, the nodes of the others were turned away. */
  ghost predicate Brought<N>(calls: seq<Call<N>>, k: int, n: nat, j: int)
    requires n <= |calls|
  {
    j in Live(calls, k, n) && forall l :: l in Live(calls, k, n) ==> j <= l
  }

  lemma {:induction false} Least(s: set<int>, j: int) returns (b: int)
    requires j in s
    ensures b in s && forall l :: l in s ==> b <= l
    decreases |s|
  {
    if l :| l in s && l < j {
      b := Least(s - {j}, l);
      assert forall x :: x in s ==> x == j || x in s - {j};
    } else {
      b := j;
    }
  }

  lemma SomeBrought<N>(calls: seq<Call<N>>, k: int, n: nat)
    requires n <= |calls|
    ensures (exists j :: Brought(calls, k, n, j)) <==> Live(calls, k, n) != {}
  {
    if j :| j in Live(calls, k, n) {
      var b := Least(Live(calls, k, n), j);
      assert Brought(calls, k, n, b);
    }
  }

  lemma OneBrought<N>(calls: seq<Call<N>>, k: int, n: nat, i: int, j: int)
    requires n <= |calls| && Brought(calls, k, n, i) && Brought(calls, k, n, j)
    ensures i == j
  {
  }

  /** How one more call changes which insertions of `k` are live. */
  lemma LiveOneMore<N>(calls: seq<Call<N>>, k: int, n: nat)
    requires n < |calls|
    ensures Live(calls, k, n + 1)
            == if calls[n] == Remove(k) then {}
               else Live(calls, k, n) + if calls[n].Insert? && calls[n].item.key == k then {n as int} else {}
  {
  }

  lemma MapRunOneMore<N>(calls: seq<Call<N>>, n: nat)
    requires n < |calls|
    ensures var (m, rs) := MapRun<N>(map[], calls[..n]);
            var (m', r) := MapApply(m, calls[n]);
            MapRun<N>(map[], calls[..n + 1]) == (m', rs + [r])
  {
    assert calls[..n + 1][..n] == calls[..n];
  }

  /** The entry of one key after the first `n` calls. */
  ghost predicate Entry<N>(calls: seq<Call<N>>, k: int, n: nat, m: map<int, N>)
    requires n <= |calls|
  {
    && (k in m <==> exists j :: Brought(calls, k, n, j))
    && forall j :: Brought(calls, k, n, j) ==> k in m && m[k] == calls[j].item.id
  }

  lemma EntryOneMore<N>(calls: seq<Call<N>>, k: int, n: nat, m: map<int, N>)
    requires n < |calls| && Entry(calls, k, n, m)
    ensures Entry(calls, k, n + 1, MapApply(m, calls[n]).0)
  {
    LiveOneMore(calls, k, n);
    SomeBrought(calls, k, n);
    SomeBrought(calls, k, n + 1);
    if calls[n].Insert? && calls[n].item.key == k {
      if b :| Brought(calls, k, n, b) {
        assert Brought(calls, k, n + 1, b);
      } else {
        assert Brought(calls, k, n + 1, n);
      }
    }
  }

  /** After the first `n` calls exactly the keys of the live insertions are present, each with the node
      that was brought in. */
  lemma {:induction false} MapMeaning<N>(calls: seq<Call<N>>, n: nat, k: int)
    requires n <= |calls|
    ensures Entry(calls, k, n, MapRun<N>(map[], calls[..n]).0)
  {
    if n > 0 {
      MapMeaning(calls, n - 1, k);
      MapRunOneMore(calls, n - 1);
      EntryOneMore(calls, k, n - 1, MapRun<N>(map[], calls[..n - 1]).0);
    }
  }

  /** Call number `i` is about the node that call number `j` brought in. */
  ghost predicate Meets<N>(calls: seq<Call<N>>, i: nat, j: int)
    requires i < |calls|
  {
    if calls[i].Insert? then Brought(calls, calls[i].item.key, i + 1, j) else Brought(calls, calls[i].key, i, j)
  }

  lemma {:induction false} MapRunAnswer<N>(calls: seq<Call<N>>, n: nat, i: nat)
    requires i < n <= |calls|
    ensures var rs := MapRun<N>(map[], calls[..n]).1;
            |rs| == n && rs[i] == MapApply(MapRun<N>(map[], calls[..i]).0, calls[i]).1
    decreases n
  {
    MapRunOneMore(calls, n - 1);
    MapRunLength(calls, n - 1);
    if i < n - 1 {
      MapRunAnswer(calls, n - 1, i);
    }
  }

  lemma {:induction false} MapRunLength<N>(calls: seq<Call<N>>, n: nat)
    requires n <= |calls|
    ensures |MapRun<N>(map[], calls[..n]).1| == n
  {
    if n > 0 {
      MapRunLength(calls, n - 1);
      MapRunOneMore(calls, n - 1);
    }
  }

  /** Every call returns the node it meets, and nothing exactly when it meets none. */
  lemma MapAnswers<N>(calls: seq<Call<N>>, i: nat)
    requires i < |calls|
    ensures var rs := MapRun<N>(map[], calls).1;
            && |rs| == |calls|
            && (rs[i].Some? <==> exists j :: Meets(calls, i, j))
            && forall j :: Meets(calls, i, j) ==> rs[i] == Some(calls[j].item.id)
  {
    assert calls[..|calls|] == calls;
    MapRunAnswer(calls, |calls|, i);
    if calls[i].Insert? {
      MapRunOneMore(calls, i);
      MapMeaning(calls, i + 1, calls[i].item.key);
      assert forall j :: Meets(calls, i, j) <==> Brought(calls, calls[i].item.key, i + 1, j);
      assert calls[i].item.key in MapRun<N>(map[], calls[..i + 1]).0;
      var j :| Brought(calls, calls[i].item.key, i + 1, j);
      assert Meets(calls, i, j);
    } else {
      MapMeaning(calls, i, calls[i].key);
      assert forall j :: Meets(calls, i, j) <==> Brought(calls, calls[i].key, i, j);
    }
  }

  /** The same of the run on trees: what it answers, and what the tree holds in the end. */
  lemma RunAnswers<N>(calls: seq<Call<N>>, i: nat)
    requires i < |calls|
    ensures var rs := Run<N>(Leaf, calls).1;
            && |rs| == |calls|
            && (rs[i].Some? <==> exists j :: Meets(calls, i, j))
            && forall j :: Meets(calls, i, j) ==> rs[i] == Some(calls[j].item.id)
  {
    EmptyContents<N>();
    RunRefinesMap<N>(Leaf, calls);
    MapAnswers(calls, i);
  }

  lemma RunContents<N>(calls: seq<Call<N>>, k: int)
    ensures var t := Run<N>(Leaf, calls).0;
            && Good(t)
            && (k in Contents(InOrder(t)) <==> exists j :: Brought(calls, k, |calls|, j))
            && forall j :: Brought(calls, k, |calls|, j) ==>
                 k in Contents(InOrder(t)) && Contents(InOrder(t))[k] == calls[j].item.id
  {
    EmptyContents<N>();
    RunRefinesMap<N>(Leaf, calls);
    assert calls[..|calls|] == calls;
    MapMeaning(calls, |calls|, k);
  }
}
