/** The array map: values with embedded keys, kept sorted in the prefix of a buffer. */
module ArrayMap {
  import opened Trees
  import opened SortedItems
  import opened BinarySearch
  import opened ArrayShift

  class Map<V(0)> {
    const item: array<V>
    const size: nat
    const keyOf: V -> int
    var len: nat

    constructor (buffer: array<V>, siz: nat, keyOf: V -> int)
      requires siz <= buffer.Length
      ensures Valid() && item == buffer && size == siz && this.keyOf == keyOf && Entries() == []
    {
      item, size, this.keyOf, len := buffer, siz, keyOf, 0;
    }

    /** The values of the prefix with their keys. */
    ghost function Entries(): (s: seq<Item<V>>)
      requires len <= item.Length
      reads this, item
      ensures |s| == len
    {
      Labelled(item[..len], keyOf)
    }

    ghost predicate Valid()
      reads this, item
    {
      len <= size <= item.Length && Sorted(Entries())
    }

    /** The finite map the array stands for. */
    ghost function Model(): map<int, V>
      requires Valid()
      reads this, item
    {
      Contents(Entries())
    }

    lemma ModelSize()
      requires Valid()
      ensures |Model()| == len
    {
      ContentsSize(Entries());
    }

    method BSearch(key: int) returns (found: bool, index: int32)
      requires Valid() && len <= MAX_LEN
      ensures Places(Keys(Entries()), key, found, index as int)
    {
      var low: int32, high: int32 := 0, (len - 1) as int32;
      while low <= high
        invariant 0 <= low as int <= high as int + 1 <= len
        invariant forall i :: 0 <= i < low as int ==> keyOf(item[i]) < key
        invariant forall i :: high as int < i < len ==> key < keyOf(item[i])
        decreases high as int - low as int
      {
        var med := (low + high) / 2;
        assert Entries()[med].key == keyOf(item[med]);
        assert forall i :: 0 <= i < len ==> Entries()[i].key == keyOf(item[i]);
        if keyOf(item[med]) < key {
          low := med + 1;
        } else if keyOf(item[med]) > key {
          high := med - 1;
        } else {
          return true, med;
        }
      }
      return false, low;
    }

    method Find(key: int) returns (found: bool, value: Option<V>)
      requires Valid() && len <= MAX_LEN
      ensures found == (key in Model())
      ensures value == if found then Some(Model()[key]) else None
    {
      var index;
      found, index := BSearch(key);
      PlaceInContents(Entries(), key, found, index as int);
      value := if found then Some(item[index]) else None;
    }

    method InsertAt(index: nat, value: V)
      requires index <= len < size <= item.Length
      modifies this`len, item
      ensures len == old(len) + 1 && item[..len] == old(item[..len])[..index] + [value] + old(item[..len])[index..]
    {
      ghost var was := item[..len];
      ShiftUp(item, index, len);
      item[index] := value;
      len := len + 1;
      assert item[..len] == item[..index] + [item[index]] + item[index + 1..len];
      assert was[..index] == item[..index] && was[index..] == item[index + 1..len];
    }

    /** Stores the value under its key, unless the key is present or the buffer full. */
    method Insert(key: int, value: V) returns (ok: bool)
      requires Valid() && len <= MAX_LEN && keyOf(value) == key
      modifies this`len, item
      ensures Valid() && ok == (key !in old(Model()) && |old(Model())| < size)
      ensures Model() == if ok then old(Model())[key := value] else old(Model())
      ensures !ok ==> item[..] == old(item[..]) && len == old(len)
    {
      var found, index := BSearch(key);
      ModelSize();
      PlaceInContents(Entries(), key, found, index as int);
      ok := !found && len < size;
      if ok {
        EnterItem(Entries(), index as int, Item(value, key));
        LabelledEnter(item[..len], index as int, value, keyOf);
        InsertAt(index as nat, value);
      }
    }

    method RemoveAt(index: nat)
      requires index < len <= size <= item.Length
      modifies this`len, item
      ensures len == old(len) - 1 && item[..len] == old(item[..len])[..index] + old(item[..len])[index + 1..]
    {
      ghost var was := item[..len];
      ShiftDown(item, index, len);
      len := len - 1;
      assert item[..len] == item[..index] + item[index..len];
      assert was[..index] == item[..index] && was[index + 1..] == item[index..len];
    }

    /** Takes the value with the given key out, if there is one. */
    method Remove(key: int)
      requires Valid() && len <= MAX_LEN
      modifies this`len, item
      ensures Valid() && Model() == old(Model()) - {key}
      ensures key !in old(Model()) ==> item[..] == old(item[..]) && len == old(len)
    {
      var found, index := BSearch(key);
      PlaceInContents(Entries(), key, found, index as int);
      if found {
        LeaveItem(Entries(), index as int);
        LabelledLeave(item[..len], index as int, keyOf);
        RemoveAt(index as nat);
      }
    }

    method Perform(call: Call<V>) returns (r: Reply<V>)
      requires Valid() && size <= MAX_LEN
      modifies this`len, item
      ensures Valid() && (Model(), r) == Apply(old(Model()), size, keyOf, call)
    {
      match call
      case Insert(value) =>
        var ok := Insert(keyOf(value), value);
        r := Stored(ok);
      case Remove(key) =>
        Remove(key);
        r := Removed;
      case Find(key) =>
        var found, value := Find(key);
        r := Looked(value);
    }

    method PerformAll(calls: seq<Call<V>>) returns (replies: seq<Reply<V>>)
      requires Valid() && size <= MAX_LEN
      modifies this`len, item
      ensures Valid() && (Model(), replies) == Run(old(Model()), size, keyOf, calls)
    {
      replies := [];
      var i := 0;
      while i < |calls|
        invariant i <= |calls| && Valid()
        invariant (Model(), replies) == Run(old(Model()), size, keyOf, calls[..i])
      {
        assert calls[..i + 1][..i] == calls[..i];
        var r := Perform(calls[i]);
        replies := replies + [r];
        i := i + 1;
      }
      assert calls[..|calls|] == calls;
    }

    /** Every run of insert, remove and find acts, and answers, as on a finite map of at most `size` keys.
        In terms of the calls alone: a find answers with the value that was stored last under its key and
        not removed since, or was there from the start, and with none otherwise. */
    method RunCalls(calls: seq<Call<V>>) returns (replies: seq<Reply<V>>)
      requires Valid() && size <= MAX_LEN
      modifies this`len, item
      ensures Valid() && (Model(), replies) == Run(old(Model()), size, keyOf, calls)
      ensures |Model()| <= size && |replies| == |calls|
      ensures forall i, j :: 0 <= i < |calls| && calls[i].Find? && j in Kept(calls, replies, keyOf, calls[i].key, i) ==>
                replies[i] == Looked(Some(calls[j].value))
      ensures forall i :: 0 <= i < |calls| && calls[i].Find? ==>
                var k := calls[i].key;
                && (Untouched(old(Model()), calls, k, i) ==> replies[i] == Looked(Some(old(Model())[k])))
                && (Kept(calls, replies, keyOf, k, i) == {} && !Untouched(old(Model()), calls, k, i) ==>
                      replies[i] == Looked(None))
    {
      replies := PerformAll(calls);
      ModelSize();
      FindsMean(old(Model()), size, keyOf, calls);
    }

    /** The map holds exactly the values of the prefix, each under its own key. */
    lemma ModelIsPrefix()
      requires Valid()
      ensures forall i :: 0 <= i < len ==> keyOf(item[i]) in Model() && Model()[keyOf(item[i])] == item[i]
      ensures forall k :: k in Model() ==> Model()[k] in item[..len] && keyOf(Model()[k]) == k
    {
      var s := Entries();
      forall i | 0 <= i < len
        ensures keyOf(item[i]) in Model() && Model()[keyOf(item[i])] == item[i]
      {
        assert s[i] == Item(item[i], keyOf(item[i]));
        ContentsAt(s, i);
      }
      forall k | k in Model()
        ensures Model()[k] in item[..len] && keyOf(Model()[k]) == k
      {
        var i := ContentsIndex(s, k);
        assert s[i] == Item(item[..len][i], keyOf(item[..len][i]));
      }
    }
  }

  // ---------- values and their keys ----------

  function Labelled<V>(s: seq<V>, keyOf: V -> int): (r: seq<Item<V>>)
    ensures |r| == |s|
  {
    seq(|s|, i requires 0 <= i < |s| => Item(s[i], keyOf(s[i])))
  }

  lemma LabelledEnter<V>(s: seq<V>, index: int, x: V, keyOf: V -> int)
    requires 0 <= index <= |s|
    ensures Labelled(s[..index] + [x] + s[index..], keyOf)
            == Labelled(s, keyOf)[..index] + [Item(x, keyOf(x))] + Labelled(s, keyOf)[index..]
  {
  }

  lemma LabelledLeave<V>(s: seq<V>, index: int, keyOf: V -> int)
    requires 0 <= index < |s|
    ensures Labelled(s[..index] + s[index + 1..], keyOf)
            == Labelled(s, keyOf)[..index] + Labelled(s, keyOf)[index + 1..]
  {
  }

  // ---------- what the calls mean ----------

  datatype Call<V> = Insert(value: V) | Remove(key: int) | Find(key: int)

  datatype Reply<V> = Stored(ok: bool) | Removed | Looked(value: Option<V>)

  function Apply<V>(m: map<int, V>, size: nat, keyOf: V -> int, call: Call<V>): (map<int, V>, Reply<V>) {
    match call
    case Insert(v) =>
      var ok := keyOf(v) !in m && |m| < size;
      (if ok then m[keyOf(v) := v] else m, Stored(ok))
    case Remove(k) => (m - {k}, Removed)
    case Find(k) => (m, Looked(if k in m then Some(m[k]) else None))
  }

  function Run<V>(m: map<int, V>, size: nat, keyOf: V -> int, calls: seq<Call<V>>): (map<int, V>, seq<Reply<V>>) {
    if calls == [] then (m, [])
    else
      var (m', rs) := Run(m, size, keyOf, calls[..|calls| - 1]);
      var (m'', r) := Apply(m', size, keyOf, calls[|calls| - 1]);
      (m'', rs + [r])
  }

  // ---------- laws of whole runs ----------

  /** What one more call does at the end of a run. */
  lemma RunOneMore<V>(m: map<int, V>, size: nat, keyOf: V -> int, calls: seq<Call<V>>, call: Call<V>)
    ensures var (was, replies) := Run(m, size, keyOf, calls);
            var (now, replies') := Run(m, size, keyOf, calls + [call]);
            && |replies| == |calls| && |replies'| == |calls| + 1 && replies'[..|calls|] == replies
            && var r := replies'[|calls|];
               match call
               case Insert(v) =>
                 if keyOf(v) in was || |was| >= size then now == was && r == Stored(false)
                 else now == was[keyOf(v) := v] && r == Stored(true)
               case Remove(k) => now == was - {k} && r == Removed
               case Find(k) => now == was && r == Looked(if k in was then Some(was[k]) else None)
  {
    RunLength(m, size, keyOf, calls);
    assert (calls + [call])[..|calls|] == calls;
  }

  lemma {:induction false} RunLength<V>(m: map<int, V>, size: nat, keyOf: V -> int, calls: seq<Call<V>>)
    ensures |Run(m, size, keyOf, calls).1| == |calls|
  {
    if calls != [] {
      RunLength(m, size, keyOf, calls[..|calls| - 1]);
    }
  }

  lemma {:induction false} RunPrefix<V>(m: map<int, V>, size: nat, keyOf: V -> int, calls: seq<Call<V>>, n: nat)
    requires n <= |calls|
    ensures |Run(m, size, keyOf, calls).1| == |calls|
    ensures Run(m, size, keyOf, calls).1[..n] == Run(m, size, keyOf, calls[..n]).1
    decreases |calls| - n
  {
    RunLength(m, size, keyOf, calls);
    if n == |calls| {
      assert calls[..n] == calls;
    } else {
      RunPrefix(m, size, keyOf, calls, n + 1);
      assert calls[..n + 1] == calls[..n] + [calls[n]];
      RunOneMore(m, size, keyOf, calls[..n], calls[n]);
      var rs := Run(m, size, keyOf, calls).1;
      assert rs[..n] == rs[..n + 1][..n];
    }
  }

  /** The calls before number `n` that stored a value under the key and are followed by no removal of it. */
  ghost function Kept<V>(calls: seq<Call<V>>, replies: seq<Reply<V>>, keyOf: V -> int, k: int, n: nat): set<int>
    requires n <= |calls| == |replies|
  {
    set j | 0 <= j < n && calls[j].Insert? && keyOf(calls[j].value) == k && replies[j] == Stored(true)
            && forall l :: j < l < n ==> !(calls[l].Remove? && calls[l].key == k)
  }

  /** Was the key there from the start and never removed? */
  ghost predicate Untouched<V>(m: map<int, V>, calls: seq<Call<V>>, k: int, n: nat)
    requires n <= |calls|
  {
    k in m && forall l :: 0 <= l < n ==> !(calls[l].Remove? && calls[l].key == k)
  }

  lemma KeptOneMore<V>(calls: seq<Call<V>>, replies: seq<Reply<V>>, keyOf: V -> int, k: int, n: nat)
    requires n < |calls| == |replies|
    ensures Kept(calls, replies, keyOf, k, n + 1)
            == if calls[n].Remove? && calls[n].key == k then {}
               else if calls[n].Insert? && keyOf(calls[n].value) == k && replies[n] == Stored(true) then
                 Kept(calls, replies, keyOf, k, n) + {n as int}
               else Kept(calls, replies, keyOf, k, n)
  {
  }

  /** The entry of one key after the first `n` calls: present exactly when it was stored, or there from
      the start, and not removed since. */
  ghost predicate Entry<V>(m: map<int, V>, keyOf: V -> int, calls: seq<Call<V>>, replies: seq<Reply<V>>,
                           k: int, n: nat, now: map<int, V>)
    requires n <= |calls| == |replies|
  {
    && (k in now <==> Kept(calls, replies, keyOf, k, n) != {} || Untouched(m, calls, k, n))
    && (forall j :: j in Kept(calls, replies, keyOf, k, n) ==> k in now && now[k] == calls[j].value)
    && (Untouched(m, calls, k, n) ==> k in now && now[k] == m[k])
  }

  lemma EntryOneMore<V>(m: map<int, V>, size: nat, keyOf: V -> int, calls: seq<Call<V>>, replies: seq<Reply<V>>,
                        k: int, n: nat, was: map<int, V>)
    requires n < |calls| == |replies| && Entry(m, keyOf, calls, replies, k, n, was)
    requires replies[n] == Apply(was, size, keyOf, calls[n]).1
    ensures Entry(m, keyOf, calls, replies, k, n + 1, Apply(was, size, keyOf, calls[n]).0)
  {
    KeptOneMore(calls, replies, keyOf, k, n);
  }

  lemma {:induction false} MapMeaning<V>(m: map<int, V>, size: nat, keyOf: V -> int, calls: seq<Call<V>>,
                                            n: nat, k: int)
    requires n <= |calls|
    ensures |Run(m, size, keyOf, calls).1| == |calls|
    ensures Entry(m, keyOf, calls, Run(m, size, keyOf, calls).1, k, n, Run(m, size, keyOf, calls[..n]).0)
    decreases n
  {
    RunLength(m, size, keyOf, calls);
    if n > 0 {
      var i := n - 1;
      MapMeaning(m, size, keyOf, calls, i, k);
      RunStep(m, size, keyOf, calls, i);
      EntryOneMore(m, size, keyOf, calls, Run(m, size, keyOf, calls).1, k, i, Run(m, size, keyOf, calls[..i]).0);
    }
  }

  lemma RunStep<V>(m: map<int, V>, size: nat, keyOf: V -> int, calls: seq<Call<V>>, i: nat)
    requires i < |calls|
    ensures |Run(m, size, keyOf, calls).1| == |calls|
    ensures (Run(m, size, keyOf, calls[..i + 1]).0, Run(m, size, keyOf, calls).1[i])
            == Apply(Run(m, size, keyOf, calls[..i]).0, size, keyOf, calls[i])
  {
    assert calls[..i + 1][..i] == calls[..i];
    RunLength(m, size, keyOf, calls[..i]);
    RunPrefix(m, size, keyOf, calls, i + 1);
    assert Run(m, size, keyOf, calls).1[i] == Run(m, size, keyOf, calls).1[..i + 1][i];
  }

  lemma FindsMean<V>(m: map<int, V>, size: nat, keyOf: V -> int, calls: seq<Call<V>>)
    ensures var replies := Run(m, size, keyOf, calls).1;
            && |replies| == |calls|
            && (forall i, j ::
                  0 <= i < |calls| && calls[i].Find? && j in Kept(calls, replies, keyOf, calls[i].key, i) ==>
                  replies[i] == Looked(Some(calls[j].value)))
            && (forall i :: 0 <= i < |calls| && calls[i].Find? ==>
                  var k := calls[i].key;
                  && (Untouched(m, calls, k, i) ==> replies[i] == Looked(Some(m[k])))
                  && (Kept(calls, replies, keyOf, k, i) == {} && !Untouched(m, calls, k, i) ==>
                        replies[i] == Looked(None)))
  {
    var replies := Run(m, size, keyOf, calls).1;
    RunLength(m, size, keyOf, calls);
    forall i | 0 <= i < |calls| && calls[i].Find?
      ensures var k := calls[i].key;
              && (forall j :: j in Kept(calls, replies, keyOf, k, i) ==> replies[i] == Looked(Some(calls[j].value)))
              && (Untouched(m, calls, k, i) ==> replies[i] == Looked(Some(m[k])))
              && (Kept(calls, replies, keyOf, k, i) == {} && !Untouched(m, calls, k, i) ==> replies[i] == Looked(None))
    {
      AnswerMeans(m, size, keyOf, calls, i);
      MapMeaning(m, size, keyOf, calls, i, calls[i].key);
    }
  }

  lemma AnswerMeans<V>(m: map<int, V>, size: nat, keyOf: V -> int, calls: seq<Call<V>>, i: nat)
    requires i < |calls|
    ensures var was, replies := Run(m, size, keyOf, calls[..i]).0, Run(m, size, keyOf, calls).1;
            && |replies| == |calls|
            && (calls[i].Find? ==>
                  replies[i] == Looked(if calls[i].key in was then Some(was[calls[i].key]) else None))
            && (calls[i].Insert? ==> replies[i] == Stored(keyOf(calls[i].value) !in was && |was| < size))
  {
    assert calls[..i + 1] == calls[..i] + [calls[i]];
    RunOneMore(m, size, keyOf, calls[..i], calls[i]);
    RunPrefix(m, size, keyOf, calls, i + 1);
    assert Run(m, size, keyOf, calls).1[i] == Run(m, size, keyOf, calls).1[..i + 1][i];
  }

  /** An insertion stores its value exactly when its key is absent, read off the calls before, and fewer
      than `size` keys are present. */
  lemma InsertMeaning<V>(m: map<int, V>, size: nat, keyOf: V -> int, calls: seq<Call<V>>, i: nat)
    requires i < |calls| && calls[i].Insert?
    ensures var (now, replies) := Run(m, size, keyOf, calls);
            var k := keyOf(calls[i].value);
            && |replies| == |calls|
            && replies[i] == Stored(Kept(calls, replies, keyOf, k, i) == {} && !Untouched(m, calls, k, i)
                                    && |Run(m, size, keyOf, calls[..i]).0| < size)
  {
    AnswerMeans(m, size, keyOf, calls, i);
    MapMeaning(m, size, keyOf, calls, i, keyOf(calls[i].value));
  }
}
