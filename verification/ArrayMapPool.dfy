/** The array map pool: a buffer of pointers to objects, of which a sorted prefix is in use. The key
    of an object is stored in the object itself, on the heap. */
module ArrayMapPool {
  import opened Trees
  import opened SortedItems
  import opened BinarySearch
  import opened ArrayShift

  /** The ghost fields count the calls of the user's initializer and finalizer on the object. */
  class Obj {
    var key: int
    ghost var initialized: nat
    ghost var finalized: nat
  }

  /** The user's initializer: it may do anything to this object, and leaves it with the given key. */
  method Initialize(o: Obj, key: int)
    modifies o
    ensures o.key == key
    ensures o.initialized == old(o.initialized) + 1 && o.finalized == old(o.finalized)
  {
    o.key := key;
    o.initialized := o.initialized + 1;
  }

  /** The user's finalizer: it may do anything to this object, even change its key. */
  method Finalize(o: Obj)
    modifies o
    ensures o.finalized == old(o.finalized) + 1 && o.initialized == old(o.initialized)
  {
    o.key := *;
    o.finalized := o.finalized + 1;
  }

  function Entries(s: seq<Obj>): (r: seq<Item<Obj>>)
    reads s
    ensures |r| == |s| && forall i :: 0 <= i < |s| ==> r[i] == Item(s[i], s[i].key)
  {
    seq(|s|, i requires 0 <= i < |s| reads s => Item(s[i], s[i].key))
  }

  ghost predicate NoRepeats(s: seq<Obj>) {
    forall o :: o in s ==> multiset(s)[o] == 1
  }

  lemma NoRepeatsApart(s: seq<Obj>)
    requires NoRepeats(s)
    ensures forall i, j :: 0 <= i < j < |s| ==> s[i] != s[j]
  {
    forall i, j | 0 <= i < j < |s|
      ensures s[i] != s[j]
    {
      var a, b := s[..j], s[j + 1..];
      assert s == a + [s[j]] + b;
      assert multiset(s) == multiset(a) + multiset{s[j]} + multiset(b);
      assert a[i] in multiset(a);
      assert s[i] in s && s[j] in s;
    }
  }

  lemma PartsApart(s: seq<Obj>, len: nat)
    requires len <= |s| && forall i, j :: 0 <= i < j < |s| ==> s[i] != s[j]
    ensures forall o :: o in s[..len] ==> o !in s[len..]
    ensures forall i, j :: 0 <= i < j < |s[len..]| ==> s[len..][i] != s[len..][j]
  {
    var free := s[len..];
    assert forall i :: 0 <= i < |free| ==> free[i] == s[len + i];
  }

  /** The buffer after its entry number `len` moved down to `index`. */
  function Taken(s: seq<Obj>, index: nat, len: nat): seq<Obj>
    requires index <= len < |s|
  {
    s[..index] + [s[len]] + s[index..len] + s[len + 1..]
  }

  /** The buffer after its entry number `index` moved up to the end of the first `len`. */
  function Dropped(s: seq<Obj>, index: nat, len: nat): seq<Obj>
    requires index < len <= |s|
  {
    s[..index] + s[index + 1..len] + [s[index]] + s[len..]
  }

  lemma TakenIs(s: seq<Obj>, t: seq<Obj>, index: nat, len: nat)
    requires index <= len < |s| == |t|
    requires t[..index] == s[..index] && t[index] == s[len]
    requires t[index + 1..len + 1] == s[index..len] && t[len + 1..] == s[len + 1..]
    ensures t == Taken(s, index, len)
  {
  }

  lemma DroppedIs(s: seq<Obj>, t: seq<Obj>, index: nat, len: nat)
    requires index < len <= |s| == |t|
    requires t[..index] == s[..index] && t[index..len - 1] == s[index + 1..len]
    requires t[len - 1] == s[index] && t[len..] == s[len..]
    ensures t == Dropped(s, index, len)
  {
  }

  /** The used and the free part of the buffer after such a move. */
  lemma TakenParts(s: seq<Obj>, index: nat, len: nat)
    requires index <= len < |s|
    ensures Taken(s, index, len)[..len + 1] == s[..len][..index] + [s[len]] + s[..len][index..]
    ensures Taken(s, index, len)[len + 1..] == s[len..][1..]
  {
    var a, b := s[..index], s[index..len];
    assert Taken(s, index, len) == (a + [s[len]] + b) + s[len + 1..] && |a + [s[len]] + b| == len + 1;
    assert s[..len][..index] == a && s[..len][index..] == b;
  }

  lemma DroppedParts(s: seq<Obj>, index: nat, len: nat)
    requires index < len <= |s|
    ensures Dropped(s, index, len)[..len - 1] == s[..len][..index] + s[..len][index + 1..]
    ensures Dropped(s, index, len)[len - 1..] == [s[index]] + s[len..]
  {
    var a, b := s[..index], s[index + 1..len];
    assert Dropped(s, index, len) == (a + b) + ([s[index]] + s[len..]) && |a + b| == len - 1;
    assert s[..len][..index] == a && s[..len][index + 1..] == b;
  }

  lemma Rotated(a: seq<Obj>, x: Obj, b: seq<Obj>, r: seq<Obj>)
    ensures multiset(a + b + [x] + r) == multiset(a + [x] + b + r)
    ensures NoRepeats(a + b + [x] + r) <==> NoRepeats(a + [x] + b + r)
    ensures NoRepeats(a + b + [x] + r) ==> x !in a && x !in b
  {
    var s, t := a + b + [x] + r, a + [x] + b + r;
    assert multiset(s) == multiset(a) + multiset(b) + multiset{x} + multiset(r);
    assert multiset(t) == multiset(a) + multiset{x} + multiset(b) + multiset(r);
    assert forall o :: o in s <==> o in multiset(s);
    assert forall o :: o in t <==> o in multiset(t);
    assert x in s;
    assert x in a ==> x in multiset(a);
    assert x in b ==> x in multiset(b);
  }

  /** Moving one pointer within the buffer keeps the pointers and their distinctness. */
  lemma TakenKeeps(s: seq<Obj>, index: nat, len: nat)
    requires index <= len < |s| && NoRepeats(s)
    ensures multiset(Taken(s, index, len)) == multiset(s) && NoRepeats(Taken(s, index, len))
    ensures s[len] !in s[..len]
  {
    assert s == s[..index] + s[index..len] + [s[len]] + s[len + 1..];
    Rotated(s[..index], s[len], s[index..len], s[len + 1..]);
    assert s[..len] == s[..index] + s[index..len];
  }

  lemma DroppedKeeps(s: seq<Obj>, index: nat, len: nat)
    requires index < len <= |s| && NoRepeats(s)
    ensures multiset(Dropped(s, index, len)) == multiset(s) && NoRepeats(Dropped(s, index, len))
    ensures s[index] !in s[..index] + s[index + 1..len]
  {
    assert s == s[..index] + [s[index]] + s[index + 1..len] + s[len..];
    Rotated(s[..index], s[index], s[index + 1..len], s[len..]);
  }

  /** Entries follow their objects through both moves. */
  lemma TakenEntries(used: seq<Obj>, index: nat, x: Obj)
    requires index <= |used|
    ensures Entries(used[..index] + [x] + used[index..])
            == Entries(used)[..index] + [Item(x, x.key)] + Entries(used)[index..]
  {
  }

  lemma DroppedEntries(used: seq<Obj>, index: nat)
    requires index < |used|
    ensures Entries(used[..index] + used[index + 1..]) == Entries(used)[..index] + Entries(used)[index + 1..]
  {
  }

  // ---------- what the calls mean ----------

  datatype Call = Get(key: int) | Free(key: int) | Find(key: int)

  /** The objects in use under their keys, and the free objects, next one first. */
  datatype State = State(used: map<int, Obj>, free: seq<Obj>)

  function Apply(s: State, call: Call): (State, Obj?) {
    match call
    case Get(k) =>
      if k in s.used then (s, s.used[k])
      else if s.free == [] then (s, null)
      else (State(s.used[k := s.free[0]], s.free[1..]), s.free[0])
    case Free(k) =>
      (if k in s.used then State(s.used - {k}, [s.used[k]] + s.free) else s, null)
    case Find(k) =>
      (s, if k in s.used then s.used[k] else null)
  }

  function Run(s: State, calls: seq<Call>): (State, seq<Obj?>) {
    if calls == [] then (s, [])
    else
      var (s', rs) := Run(s, calls[..|calls| - 1]);
      var (s'', r) := Apply(s', calls[|calls| - 1]);
      (s'', rs + [r])
  }

  /** The number of objects. */
  function Size(s: State): nat { |s.used| + |s.free| }

  lemma ApplyKeepsSize(s: State, call: Call)
    ensures Size(Apply(s, call).0) == Size(s)
  {
    var s' := Apply(s, call).0;
    match call
    case Get(k) =>
      if k !in s.used && s.free != [] {
        assert s'.used.Keys == s.used.Keys + {k};
      }
    case Free(k) =>
      if k in s.used {
        assert s.used.Keys == s'.used.Keys + {k};
      }
    case Find(_) =>
  }

  /** In every run get fails exactly for an absent key when all `size` objects are in use. */
  lemma {:induction false} RunKeepsSize(s: State, calls: seq<Call>, k: int)
    ensures var s' := Run(s, calls).0;
            && Size(s') == Size(s)
            && (Apply(s', Get(k)).1 == null <==> k !in s'.used && |s'.used| == Size(s))
  {
    if calls != [] {
      var init := calls[..|calls| - 1];
      RunKeepsSize(s, init, k);
      ApplyKeepsSize(Run(s, init).0, calls[|calls| - 1]);
    }
  }

  // ---------- laws of whole runs ----------

  /** What one more call does at the end of a run. */
  lemma RunOneMore(s: State, calls: seq<Call>, call: Call)
    ensures var (was, outs) := Run(s, calls);
            var (now, outs') := Run(s, calls + [call]);
            && |outs| == |calls| && |outs'| == |calls| + 1 && outs'[..|calls|] == outs
            && var r := outs'[|calls|];
               match call
               case Find(k) =>
                 now == was && r == if k in was.used then was.used[k] else null
               case Free(k) =>
                 && r == null
                 && if k in was.used then now.used == was.used - {k} && now.free == [was.used[k]] + was.free
                    else now == was
               case Get(k) =>
                 if k in was.used then now == was && r == was.used[k]
                 else if was.free == [] then now == was && r == null
                 else r == was.free[0] && now.free == was.free[1..] && now.used == was.used[k := r]
  {
    RunLength(s, calls);
    assert (calls + [call])[..|calls|] == calls;
  }

  lemma {:induction false} RunLength(s: State, calls: seq<Call>)
    ensures |Run(s, calls).1| == |calls|
  {
    if calls != [] {
      RunLength(s, calls[..|calls| - 1]);
    }
  }

  lemma {:induction false} RunPrefix(s: State, calls: seq<Call>, n: nat)
    requires n <= |calls|
    ensures |Run(s, calls).1| == |calls| && Run(s, calls).1[..n] == Run(s, calls[..n]).1
    decreases |calls| - n
  {
    RunLength(s, calls);
    if n == |calls| {
      assert calls[..n] == calls;
    } else {
      RunPrefix(s, calls, n + 1);
      assert calls[..n + 1] == calls[..n] + [calls[n]];
      RunOneMore(s, calls[..n], calls[n]);
      var rs := Run(s, calls).1;
      assert rs[..n] == rs[..n + 1][..n];
    }
  }

  /** The calls before number `n` that got an object for the key and are followed by no call to free it. */
  ghost function Got(calls: seq<Call>, outs: seq<Obj?>, k: int, n: nat): set<int>
    requires n <= |calls| == |outs|
  {
    set j | 0 <= j < n && calls[j] == Call.Get(k) && outs[j] != null
            && forall l :: j < l < n ==> calls[l] != Call.Free(k)
  }

  /** Was the key in use from the start and never freed? */
  ghost predicate Untouched(used: map<int, Obj>, calls: seq<Call>, k: int, n: nat)
    requires n <= |calls|
  {
    k in used && forall l :: 0 <= l < n ==> calls[l] != Call.Free(k)
  }

  lemma GotOneMore(calls: seq<Call>, outs: seq<Obj?>, k: int, n: nat)
    requires n < |calls| == |outs|
    ensures Got(calls, outs, k, n + 1)
            == if calls[n] == Call.Free(k) then {}
               else Got(calls, outs, k, n) + if calls[n] == Call.Get(k) && outs[n] != null then {n as int} else {}
  {
  }

  /** The entry of one key after the first `n` calls: present exactly when it was got, or there from the
      start, and not freed since; the object is the one that was handed out. */
  ghost predicate Entry(s: State, calls: seq<Call>, outs: seq<Obj?>, k: int, n: nat, used: map<int, Obj>)
    requires n <= |calls| == |outs|
  {
    && (k in used <==> Got(calls, outs, k, n) != {} || Untouched(s.used, calls, k, n))
    && (forall j :: j in Got(calls, outs, k, n) ==> k in used && outs[j] == used[k])
    && (Untouched(s.used, calls, k, n) ==> k in used && used[k] == s.used[k])
  }

  lemma {:induction false} UsedMeaning(s: State, calls: seq<Call>, n: nat, k: int)
    requires n <= |calls|
    ensures |Run(s, calls).1| == |calls|
    ensures Entry(s, calls, Run(s, calls).1, k, n, Run(s, calls[..n]).0.used)
    decreases n
  {
    RunLength(s, calls);
    if n > 0 {
      var outs := Run(s, calls).1;
      var i := n - 1;
      UsedMeaning(s, calls, i, k);
      assert calls[..n] == calls[..i] + [calls[i]];
      RunOneMore(s, calls[..i], calls[i]);
      RunPrefix(s, calls, n);
      assert outs[i] == outs[..n][i];
      GotOneMore(calls, outs, k, i);
    }
  }

  /** Every find answers with the object that the key was last got with, or was in use under from the
      start, unless it was freed since; every get of a key in use returns that object. */
  lemma FindMeaning(s: State, calls: seq<Call>, i: nat)
    requires i < |calls| && !calls[i].Free?
    ensures var outs := Run(s, calls).1;
            var k := calls[i].key;
            && |outs| == |calls|
            && (forall j :: j in Got(calls, outs, k, i) ==> outs[i] == outs[j])
            && (Untouched(s.used, calls, k, i) ==> outs[i] == s.used[k])
            && (calls[i].Find? && Got(calls, outs, k, i) == {} && !Untouched(s.used, calls, k, i) ==> outs[i] == null)
  {
    UsedMeaning(s, calls, i, calls[i].key);
    assert calls[..i + 1] == calls[..i] + [calls[i]];
    RunOneMore(s, calls[..i], calls[i]);
    RunPrefix(s, calls, i + 1);
    assert Run(s, calls).1[i] == Run(s, calls).1[..i + 1][i];
  }

  lemma FindsMean(s: State, calls: seq<Call>)
    ensures var outs := Run(s, calls).1;
            && |outs| == |calls|
            && (forall i, j :: 0 <= i < |calls| && !calls[i].Free? && j in Got(calls, outs, calls[i].key, i) ==>
                  outs[i] == outs[j])
            && (forall i :: 0 <= i < |calls| && calls[i].Find? ==>
                  var k := calls[i].key;
                  Got(calls, outs, k, i) == {} && !Untouched(s.used, calls, k, i) ==> outs[i] == null)
  {
    var outs := Run(s, calls).1;
    RunLength(s, calls);
    forall i | 0 <= i < |calls| && !calls[i].Free?
      ensures forall j :: j in Got(calls, outs, calls[i].key, i) ==> outs[i] == outs[j]
      ensures calls[i].Find? ==>
                var k := calls[i].key;
                Got(calls, outs, k, i) == {} && !Untouched(s.used, calls, k, i) ==> outs[i] == null
    {
      FindMeaning(s, calls, i);
    }
  }

  /** No object occurs twice among those in use and the free ones. */
  ghost predicate Whole(s: State) {
    && (forall i, j :: 0 <= i < j < |s.free| ==> s.free[i] != s.free[j])
    && (forall k :: k in s.used ==> s.used[k] !in s.free)
    && (forall k, l :: k in s.used && l in s.used && k != l ==> s.used[k] != s.used[l])
  }

  /** In every run a new key gets an object that no other key holds. */
  lemma {:induction false} RunKeepsWhole(s: State, calls: seq<Call>, k: int)
    requires Whole(s)
    ensures var s' := Run(s, calls).0;
            && Whole(s')
            && |Run(s, calls + [Call.Get(k)]).1| == |calls| + 1
            && (k !in s'.used ==> forall l :: l in s'.used ==> s'.used[l] != Run(s, calls + [Call.Get(k)]).1[|calls|])
  {
    RunOneMore(s, calls, Call.Get(k));
    if calls != [] {
      var init, last := calls[..|calls| - 1], calls[|calls| - 1];
      RunKeepsWhole(s, init, k);
      assert calls == init + [last];
      RunOneMore(s, init, last);
    }
  }

  class Pool {
    const item: array<Obj>
    const size: nat
    var len: nat

    constructor (buffer: array<Obj>, siz: nat)
      requires siz == buffer.Length && NoRepeats(buffer[..])
      ensures Valid() && item == buffer && size == siz && len == 0
    {
      item, size, len := buffer, siz, 0;
    }

    /** The objects in use are sorted by key, and no object occurs twice in the whole buffer. */
    ghost predicate Valid()
      reads this, item, item[..]
    {
      len <= size == item.Length && NoRepeats(item[..]) && Sorted(Entries(item[..len]))
    }

    /** The finite map from keys to objects in use. */
    ghost function Model(): map<int, Obj>
      requires Valid()
      reads this, item, item[..]
    {
      Contents(Entries(item[..len]))
    }

    /** The map holds exactly the objects in use, each under the key that it carries. */
    lemma ModelIsUsed()
      requires Valid()
      ensures forall i :: 0 <= i < len ==> item[i].key in Model() && Model()[item[i].key] == item[i]
      ensures forall k :: k in Model() ==> Model()[k] in item[..] && Model()[k] in item[..len] && Model()[k].key == k
    {
      var s := Entries(item[..len]);
      forall i | 0 <= i < len
        ensures item[i].key in Model() && Model()[item[i].key] == item[i]
      {
        ContentsAt(s, i);
      }
      forall k | k in Model()
        ensures Model()[k] in item[..] && Model()[k] in item[..len] && Model()[k].key == k
      {
        var i := ContentsIndex(s, k);
        assert item[..len][i] == item[i] == item[..][i];
      }
    }

    lemma UsedObject(key: int)
      requires Valid()
      ensures key in Model() ==> Model()[key] in item[..]
    {
      ModelIsUsed();
    }

    /** The free objects, seen in the whole buffer. */
    lemma ItemsOutside()
      requires len <= size == item.Length
      ensures item[len..] == item[..][len..]
      ensures if len < size then item[len..] != [] && item[len..][0] == item[len] else item[len..] == []
    {
    }

    /** That map, and the free objects. */
    ghost function Abstract(): State
      requires Valid()
      reads this, item, item[..]
    {
      State(Model(), item[len..])
    }

    /** In a pool no object occurs twice. */
    lemma PoolIsWhole()
      requires Valid()
      ensures Whole(Abstract())
    {
      ModelIsUsed();
      NoRepeatsApart(item[..]);
      PartsApart(item[..], len);
      ItemsOutside();
    }

    method BSearch(key: int) returns (found: bool, index: int32)
      requires Valid() && len <= MAX_LEN
      ensures Places(Keys(Entries(item[..len])), key, found, index as int)
      ensures found == (key in Model()) && Model() == old(Model())
      ensures found ==> item[index] == Model()[key]
    {
      ghost var s := Entries(item[..len]);
      var low: int32, high: int32 := 0, (len - 1) as int32;
      while low <= high
        invariant 0 <= low as int <= high as int + 1 <= len
        invariant forall i :: 0 <= i < low as int ==> s[i].key < key
        invariant forall i :: high as int < i < len ==> key < s[i].key
        decreases high as int - low as int
      {
        var med := (low + high) / 2;
        if item[med].key < key {
          low := med + 1;
        } else if item[med].key > key {
          high := med - 1;
        } else {
          PlaceInContents(s, key, true, med as int);
          return true, med;
        }
      }
      PlaceInContents(s, key, false, low as int);
      return false, low;
    }

    method Find(key: int) returns (o: Obj?)
      requires Valid() && len <= MAX_LEN
      ensures o == if key in Model() then Model()[key] else null
    {
      var found, index := BSearch(key);
      o := if found then item[index] else null;
    }

    /** Takes the first free object into use at `index`; the used ones behind it move one slot up. */
    method TakeAt(index: nat)
      requires index <= len < size == item.Length
      modifies this`len, item
      ensures len == old(len) + 1 && item[..] == Taken(old(item[..]), index, old(len))
    {
      var o := item[len];
      ghost var was := item[..];
      ShiftUp(item, index, len);
      item[index] := o;
      TakenIs(was, item[..], index, len);
      len := len + 1;
    }

    /** Puts the object at `index` out of use, right behind the used ones. */
    method DropAt(index: nat)
      requires index < len <= size == item.Length
      modifies this`len, item
      ensures len == old(len) - 1 && item[..] == Dropped(old(item[..]), index, old(len))
    {
      var o := item[index];
      ghost var was := item[..];
      ShiftDown(item, index, len);
      item[len - 1] := o;
      DroppedIs(was, item[..], index, len);
      len := len - 1;
    }

    /** Initializing an object outside of `used` changes no key there. */
    method InitializeOutside(x: Obj, key: int, ghost used: seq<Obj>)
      requires x !in used
      modifies x
      ensures x.key == key && Entries(used) == old(Entries(used))
      ensures x.initialized == old(x.initialized) + 1 && x.finalized == old(x.finalized)
    {
      Initialize(x, key);
    }

    method FinalizeOutside(x: Obj, ghost used: seq<Obj>)
      requires x !in used
      modifies x
      ensures Entries(used) == old(Entries(used))
      ensures x.finalized == old(x.finalized) + 1 && x.initialized == old(x.initialized)
    {
      Finalize(x);
    }

    /** The allocating branch of get, in the heap: the first free object gets the key and moves to
        `index`; no other object is touched. */
    method Allocate(key: int, index: nat) returns (x: Obj)
      requires NoRepeats(item[..]) && index <= len < size == item.Length
      modifies this`len, item, item[len]
      ensures len == old(len) + 1 && item[..] == Taken(old(item[..]), index, old(len))
      ensures x == old(item[len]) && x.key == key
      ensures x.initialized == old(item[len].initialized) + 1 && x.finalized == old(item[len].finalized)
      ensures Entries(item[..len])
              == old(Entries(item[..len])[..index]) + [Item(x, key)] + old(Entries(item[..len])[index..])
    {
      x := item[len];
      ghost var used, e := item[..len], Entries(item[..len]);
      TakenKeeps(item[..], index, len);
      TakenParts(item[..], index, len);
      InitializeOutside(x, key, used);
      TakeAt(index);
      TakenEntries(used, index, x);
      assert Entries(used) == e;
    }

    /** The allocating branch of get, in the map. */
    method Enter(key: int, index: nat) returns (o: Obj)
      requires Valid() && len < size && Places(Keys(Entries(item[..len])), key, false, index)
      modifies this`len, item, item[len]
      ensures Valid() && multiset(item[..]) == old(multiset(item[..])) && o.key == key
      ensures Model() == old(Model())[key := o]
      ensures o == old(item[len]) && item[len..] == old(item[len..])[1..]
      ensures o.initialized == old(item[len].initialized) + 1 && o.finalized == old(item[len].finalized)
    {
      ghost var s, e, n := item[..], Entries(item[..len]), len;
      o := Allocate(key, index);
      EnterItem(e, index, Item(o, key));
      TakenKeeps(s, index, n);
      TakenParts(s, index, n);
    }

    /** The branch of get for an absent key. */
    method Miss(key: int, index: nat) returns (o: Obj?)
      requires Valid() && Places(Keys(Entries(item[..len])), key, false, index)
      modifies this`len, item, if len < size then {item[len]} else {}
      ensures Valid() && multiset(item[..]) == old(multiset(item[..]))
      ensures old(len) == size ==> o == null && Model() == old(Model()) && item[..] == old(item[..]) && len == old(len)
      ensures old(len) < size ==>
                && o == old(item[len]) && o.key == key
                && Model() == old(Model())[key := o] && item[len..] == old(item[len..])[1..]
                && o.initialized == old(item[len].initialized) + 1 && o.finalized == old(item[len].finalized)
    {
      if len >= size {
        o := null;
      } else {
        o := Enter(key, index);
      }
    }

    /** Returns the object with the key. If there is none, the first free object is initialized and taken
        into use; if no object is free either, nothing changes. Only that free object is touched. */
    method Get(key: int) returns (o: Obj?)
      requires Valid() && len <= MAX_LEN
      modifies this`len, item, if len < size then {item[len]} else {}
      ensures Valid() && multiset(item[..]) == old(multiset(item[..]))
      ensures key in old(Model()) ==> o == old(Model()[key])
      ensures key !in old(Model()) && old(len) < size ==>
                && o == old(item[len]) && o.key == key
                && Model() == old(Model())[key := o] && item[len..] == old(item[len..])[1..]
                && o.initialized == old(item[len].initialized) + 1 && o.finalized == old(item[len].finalized)
      ensures key !in old(Model()) && old(len) == size ==> o == null
      ensures key in old(Model()) || old(len) == size ==>
                && Model() == old(Model()) && item[..] == old(item[..]) && len == old(len)
                && (old(len) < size ==> unchanged(old(item[len])))
    {
      var found, index := BSearch(key);
      if !found {
        o := Miss(key, index as nat);
      } else {
        o := item[index];
      }
    }

    /** The found branch of free, in the heap: the object at `index` moves behind the used ones, and the
        finalizer may do to it what it likes. */
    method Release(index: nat)
      requires NoRepeats(item[..]) && index < len <= size == item.Length
      modifies this`len, item, item[index]
      ensures len == old(len) - 1 && item[..] == Dropped(old(item[..]), index, old(len))
      ensures old(item[index]).finalized == old(item[index].finalized) + 1
      ensures old(item[index]).initialized == old(item[index].initialized)
      ensures Entries(item[..len]) == old(Entries(item[..len])[..index]) + old(Entries(item[..len])[index + 1..])
    {
      var x := item[index];
      ghost var used, rest := item[..len], item[..len][..index] + item[..len][index + 1..];
      DroppedKeeps(item[..], index, len);
      DroppedParts(item[..], index, len);
      assert item[..][..index] + item[..][index + 1..len] == rest;
      DroppedEntries(used, index);
      FinalizeOutside(x, rest);
      ghost var e := Entries(rest);
      DropAt(index);
      assert Entries(rest) == e;
    }

    /** The found branch of free, in the map. */
    method Leave(key: int, index: nat)
      requires Valid() && index < len && key in Model() && item[index] == Model()[key]
      modifies this`len, item, item[index]
      ensures Valid() && multiset(item[..]) == old(multiset(item[..]))
      ensures Model() == old(Model()) - {key}
      ensures item[len..] == [old(item[index])] + old(item[len..]) && len == old(len) - 1
      ensures old(item[index]).finalized == old(item[index].finalized) + 1
      ensures old(item[index]).initialized == old(item[index].initialized)
    {
      ghost var s, e, n := item[..], Entries(item[..len]), len;
      ModelIsUsed();
      LeaveItem(e, index);
      Release(index);
      DroppedKeeps(s, index, n);
      DroppedParts(s, index, n);
    }

    /** Takes the object with the key out of use, if there is one: it is finalized once and is the next to
        be used. No other object is touched. */
    method Free(key: int)
      requires Valid() && len <= MAX_LEN
      modifies this`len, item, if key in Model() then {Model()[key]} else {}
      ensures Valid() && multiset(item[..]) == old(multiset(item[..]))
      ensures Model() == old(Model()) - {key}
      ensures key in old(Model()) ==>
                var o := old(Model()[key]);
                && item[len..] == [o] + old(item[len..]) && len == old(len) - 1
                && o.finalized == old(Model()[key].finalized) + 1 && o.initialized == old(Model()[key].initialized)
      ensures key !in old(Model()) ==>
                item[..] == old(item[..]) && len == old(len)
    {
      var found, index := BSearch(key);
      if found {
        Leave(key, index as nat);
      } else {
        assert Model() - {key} == Model();
      }
    }

    method Perform(call: Call) returns (o: Obj?)
      requires Valid() && size <= MAX_LEN
      modifies this`len, item, item[..]
      ensures Valid() && multiset(item[..]) == old(multiset(item[..]))
      ensures (Abstract(), o) == Apply(old(Abstract()), call)
    {
      match call {
        case Get(k) =>
          o := PerformGet(k);
        case Free(k) =>
          PerformFree(k);
          o := null;
        case Find(k) =>
          o := Find(k);
      }
    }

    method PerformGet(key: int) returns (o: Obj?)
      requires Valid() && size <= MAX_LEN
      modifies this`len, item, item[..]
      ensures Valid() && multiset(item[..]) == old(multiset(item[..]))
      ensures (Abstract(), o) == Apply(old(Abstract()), Call.Get(key))
    {
      ItemsOutside();
      o := Get(key);
      ItemsOutside();
    }

    /** Free, with its effect on the free objects in one clause. */
    method FreeAny(key: int)
      requires Valid() && len <= MAX_LEN
      modifies this`len, item, if key in Model() then {Model()[key]} else {}
      ensures Valid() && multiset(item[..]) == old(multiset(item[..])) && Model() == old(Model()) - {key}
      ensures item[len..] == if key in old(Model()) then [old(Model()[key])] + old(item[len..]) else old(item[len..])
    {
      ItemsOutside();
      Free(key);
      ItemsOutside();
    }

    method PerformFree(key: int)
      requires Valid() && size <= MAX_LEN
      modifies this`len, item, item[..]
      ensures Valid() && multiset(item[..]) == old(multiset(item[..]))
      ensures Abstract() == Apply(old(Abstract()), Call.Free(key)).0
    {
      ghost var s := Abstract();
      ghost var s' := Apply(s, Call.Free(key)).0;
      UsedObject(key);
      assert s'.used == s.used - {key};
      assert s'.free == if key in s.used then [s.used[key]] + s.free else s.free;
      FreeAny(key);
      assert Model() == s'.used && item[len..] == s'.free;
    }

    method PerformAll(calls: seq<Call>) returns (outs: seq<Obj?>)
      requires Valid() && size <= MAX_LEN
      modifies this`len, item, item[..]
      ensures Valid() && multiset(item[..]) == old(multiset(item[..]))
      ensures (Abstract(), outs) == Run(old(Abstract()), calls)
    {
      ghost var buffer := item[..];
      outs := [];
      var i := 0;
      while i < |calls|
        invariant i <= |calls| && Valid() && multiset(item[..]) == multiset(buffer)
        invariant (Abstract(), outs) == Run(old(Abstract()), calls[..i])
      {
        assert calls[..i + 1][..i] == calls[..i];
        SameObjects(item[..], buffer);
        var o := Perform(calls[i]);
        outs := outs + [o];
        i := i + 1;
      }
      assert calls[..|calls|] == calls;
    }

    /** Any run of get, free and find keeps exactly the pointers the buffer started with, each once, keeps
        the used ones sorted, and returns the objects that the specification says. In terms of the calls
        alone: a key that was got and not freed since answers with the object it was got with, and a find
        of any other key, unless it was there from the start, with null. */
    method RunCalls(calls: seq<Call>) returns (outs: seq<Obj?>)
      requires Valid() && size <= MAX_LEN
      modifies this`len, item, item[..]
      ensures Valid() && multiset(item[..]) == old(multiset(item[..]))
      ensures (Abstract(), outs) == Run(old(Abstract()), calls) && |outs| == |calls|
      ensures forall i, j :: 0 <= i < |calls| && !calls[i].Free? && j in Got(calls, outs, calls[i].key, i) ==>
                outs[i] == outs[j]
      ensures forall i :: 0 <= i < |calls| && calls[i].Find? ==>
                var k := calls[i].key;
                Got(calls, outs, k, i) == {} && !Untouched(old(Model()), calls, k, i) ==> outs[i] == null
    {
      outs := PerformAll(calls);
      FindsMean(old(Abstract()), calls);
    }
  }

  lemma SameObjects(s: seq<Obj>, t: seq<Obj>)
    requires multiset(s) == multiset(t)
    ensures forall i :: 0 <= i < |s| ==> s[i] in t
  {
    forall i | 0 <= i < |s|
      ensures s[i] in t
    {
      assert s[i] in multiset(s);
      assert s[i] in multiset(t);
    }
  }
}
