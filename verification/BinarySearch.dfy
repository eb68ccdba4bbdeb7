/** The binary search of the array map and of the array map pool: what it finds, and how long an
    array it can search before its `int` midpoint overflows. */
module BinarySearch {
  import opened Trees
  import opened SortedItems

  /** C's `int` with 32 bits. */
  newtype int32 = x: int | -0x8000_0000 <= x < 0x8000_0000

  /** The longest array for which no sum of two indices overflows. */
  const MAX_LEN: nat := 0x4000_0000

  ghost predicate Ascending(keys: seq<int>) {
    forall i, j :: 0 <= i < j < |keys| ==> keys[i] < keys[j]
  }

  /** The index of the key, or the only index at which it could be inserted. */
  ghost predicate Places(keys: seq<int>, key: int, found: bool, index: int) {
    if found then 0 <= index < |keys| && keys[index] == key
    else
      && 0 <= index <= |keys|
      && (forall i :: 0 <= i < index ==> keys[i] < key)
      && (forall i :: index <= i < |keys| ==> key < keys[i])
  }

  /** Found or not, there is one answer only. */
  lemma PlaceIsUnique(keys: seq<int>, key: int, f: bool, i: int, g: bool, j: int)
    requires Ascending(keys) && Places(keys, key, f, i) && Places(keys, key, g, j)
    ensures f == g && i == j
  {
    var least := if i < j then i else j;
    assert 0 <= least < |keys| ==> keys[least] <= key || keys[least] > key;
  }

  /** The greatest sum of two indices that the search for `key` forms between `low` and `high`. */
  function MaxSum(keys: seq<int>, key: int, low: int, high: int): int
    requires 0 <= low && high < |keys|
    decreases high - low
  {
    if low > high then 0
    else
      var med := (low + high) / 2;
      var rest :=
        if keys[med] < key then MaxSum(keys, key, med + 1, high)
        else if keys[med] > key then MaxSum(keys, key, low, med - 1)
        else 0;
      if rest < low + high then low + high else rest
  }

  lemma {:induction false} SumBound(keys: seq<int>, key: int, low: int, high: int)
    requires 0 <= low && high < |keys|
    ensures MaxSum(keys, key, low, high) <= if low <= high then 2 * high else 0
    decreases high - low
  {
    if low <= high {
      var med := (low + high) / 2;
      if keys[med] < key {
        SumBound(keys, key, med + 1, high);
      } else if keys[med] > key {
        SumBound(keys, key, low, med - 1);
      }
    }
  }

  /** A search for a key beyond the last one looks at the last index alone in the end. */
  lemma {:induction false} SumReached(keys: seq<int>, key: int, low: int, high: int)
    requires 0 <= low <= high < |keys| && forall i :: 0 <= i < |keys| ==> keys[i] < key
    ensures MaxSum(keys, key, low, high) >= 2 * high
    decreases high - low
  {
    if low < high {
      SumReached(keys, key, (low + high) / 2 + 1, high);
    }
  }

  /** The search for `key` never leaves the range of `int`. */
  predicate Fits(keys: seq<int>, key: int) {
    MaxSum(keys, key, 0, |keys| - 1) < 0x8000_0000
  }

  /** No search in any ascending array of `n` keys overflows exactly when n is at most 2^30. */
  lemma OverflowIsExact(n: nat)
    ensures (forall keys: seq<int>, key: int :: |keys| == n && Ascending(keys) ==> Fits(keys, key))
            <==> n <= MAX_LEN
  {
    if n <= MAX_LEN {
      forall keys: seq<int>, key: int | |keys| == n && Ascending(keys)
        ensures Fits(keys, key)
      {
        SumBound(keys, key, 0, n - 1);
      }
    } else {
      var keys := seq(n, i => i);
      assert |keys| == n && Ascending(keys);
      SumReached(keys, n, 0, n - 1);
      assert !Fits(keys, n);
    }
  }

  // ---------- the finite map ----------

  function Keys<V>(s: seq<Item<V>>): (r: seq<int>)
    ensures |r| == |s|
  {
    seq(|s|, i requires 0 <= i < |s| => s[i].key)
  }

  /** The answer of the binary search, read in the finite map. */
  lemma PlaceInContents<V>(s: seq<Item<V>>, key: int, found: bool, index: int)
    requires Sorted(s) && Places(Keys(s), key, found, index)
    ensures found == (key in Contents(s))
    ensures found ==> Contents(s)[key] == s[index].id
    ensures !found ==> AllBelow(s[..index], key) && AllAbove(s[index..], key)
  {
    assert forall i :: 0 <= i < |s| ==> Keys(s)[i] == s[i].key;
    if found {
      ContentsAt(s, index);
    }
  }

  /** An item whose key belongs at `index` enters the sequence there, and the map. */
  lemma EnterItem<V>(s: seq<Item<V>>, index: int, x: Item<V>)
    requires Sorted(s) && Places(Keys(s), x.key, false, index)
    ensures var t := s[..index] + [x] + s[index..];
            Sorted(t) && Contents(t) == Contents(s)[x.key := x.id]
  {
    var a, b := s[..index], s[index..];
    PlaceInContents(s, x.key, false, index);
    assert s == a + b;
    SortedPair(a, x, b);
    ContentsSplit(a, x, b);
  }

  /** The item at `index` leaves the sequence, and the map. */
  lemma LeaveItem<V>(s: seq<Item<V>>, index: int)
    requires Sorted(s) && 0 <= index < |s|
    ensures var t := s[..index] + s[index + 1..];
            Sorted(t) && Contents(t) == Contents(s) - {s[index].key}
  {
    var a, x, b := s[..index], s[index], s[index + 1..];
    assert s == a + [x] + b;
    ContentsSplit(a, x, b);
  }
}
