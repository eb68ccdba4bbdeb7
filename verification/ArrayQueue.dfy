/** The ring-buffer queue with its live iterator, and the bounded sequence it stands for. */
module ArrayQueue {

  /** An iterator: the index of an item slot, or the end. */
  datatype Iter = End | Slot(index: nat)

  /** The slot of position `k` in a ring of `size` slots that starts at `front`. */
  function At(front: nat, k: nat, size: nat): (i: nat)
    requires front < size && k < size
    ensures i < size
  {
    if front + k < size then front + k else front + k - size
  }

  /** The code's remainder: at most one wrap. */
  lemma Wraps(i: nat, size: nat)
    requires size > 0 && i < 2 * size
    ensures i % size == if i < size then i else i - size
  {
    if i >= size {
      assert i % size == (i - size) % size;
    }
  }

  /** The `len` items from `front` on, in queue order. */
  function Ring<T>(a: seq<T>, front: nat, len: nat): (s: seq<T>)
    requires len <= |a| && (len > 0 ==> front < |a|)
    ensures |s| == len
  {
    seq(len, k requires 0 <= k < len => a[At(front, k, |a|)])
  }

  function Without<T>(s: seq<T>, k: nat): seq<T>
    requires k < |s|
  {
    s[..k] + s[k + 1..]
  }

  /** Storing at one slot changes the item of one position. */
  lemma RingUpdate<T>(a: seq<T>, front: nat, len: nat, j: nat, x: T)
    requires j < len <= |a| && front < |a|
    ensures Ring(a[At(front, j, |a|) := x], front, len) == Ring(a, front, len)[j := x]
  {
  }

  lemma RingPrefix<T>(a: seq<T>, front: nat, len: nat)
    requires 0 < len <= |a| && front < |a|
    ensures Ring(a, front, len - 1) == Ring(a, front, len)[..len - 1]
  {
  }

  /** The sequence while the items behind `k` move down: the positions up to `j` have moved. */
  function Shifting<T>(s: seq<T>, k: nat, j: nat): (r: seq<T>)
    requires k <= j < |s|
    ensures |r| == |s|
  {
    s[..k] + s[k + 1..j + 1] + s[j..]
  }

  /** The items of `s` behind `k` have moved down as far as position `j`. */
  ghost predicate Moved<T>(t: seq<T>, s: seq<T>, k: nat, j: nat) {
    && k <= j < |s| == |t|
    && (forall p :: 0 <= p < k || j <= p < |t| ==> t[p] == s[p])
    && (forall p :: k <= p < j ==> t[p] == s[p + 1])
  }

  lemma MovedOneMore<T>(t: seq<T>, t': seq<T>, s: seq<T>, k: nat, j: nat)
    requires Moved(t, s, k, j) && j + 1 < |s| == |t'|
    requires t'[j] == t[j + 1] && forall p :: 0 <= p < |t| && p != j ==> t'[p] == t[p]
    ensures Moved(t', s, k, j + 1)
  {
  }

  lemma ShiftingIs<T>(t: seq<T>, s: seq<T>, k: nat, j: nat)
    requires Moved(t, s, k, j)
    ensures t == Shifting(s, k, j)
  {
  }

  lemma ShiftedIsWithout<T>(s: seq<T>, k: nat)
    requires k < |s|
    ensures Shifting(s, k, k) == s
    ensures Shifting(s, k, |s| - 1)[..|s| - 1] == Without(s, k)
  {
  }

  // ---------- the bounded sequence ----------

  datatype Call<T> = Enqueue(data: T) | Dequeue | RemoveAt(k: nat)

  /** A run so far: the items in the queue, the items handed out, all items that ever were in the queue in
      the order of arrival, and the numbers of those that were deleted at their positions. */
  datatype Record<T> = Record(left: seq<T>, out: seq<T>, all: seq<T>, gone: set<nat>)

  function Start<T>(s: seq<T>): Record<T> { Record(s, [], s, {}) }

  /** A call on a queue of at most `size` items. */
  function Apply<T>(r: Record<T>, size: nat, call: Call<T>): Record<T> {
    match call
    case Enqueue(x) => if |r.left| < size then Record(r.left + [x], r.out, r.all + [x], r.gone) else r
    case Dequeue => if r.left == [] then r else Record(r.left[1..], r.out + [r.left[0]], r.all, r.gone)
    case RemoveAt(k) =>
      if k < |r.left| then
        Record(Without(r.left, k), r.out, r.all, r.gone + {NumberOf(r.gone, |r.all|, |r.out| + k)})
      else r
  }

  function Run<T>(s: seq<T>, size: nat, calls: seq<Call<T>>): Record<T> {
    if calls == [] then Start(s) else Apply(Run(s, size, calls[..|calls| - 1]), size, calls[|calls| - 1])
  }

  /** What one more call does at the end of a run. */
  lemma RunOneMore<T>(s: seq<T>, size: nat, calls: seq<Call<T>>, call: Call<T>)
    ensures Run(s, size, []) == Record(s, [], s, {})
    ensures var was, now := Run(s, size, calls), Run(s, size, calls + [call]);
            && (call.Enqueue? ==>
                  && now.out == was.out && now.gone == was.gone
                  && if |was.left| < size then now.left == was.left + [call.data] && now.all == was.all + [call.data]
                     else now == was)
            && (call.Dequeue? ==>
                  && now.all == was.all && now.gone == was.gone
                  && if was.left == [] then now == was
                     else now.left == was.left[1..] && now.out == was.out + [was.left[0]])
            && (call.RemoveAt? ==>
                  && now.all == was.all && now.out == was.out
                  && if call.k < |was.left| then now.left == was.left[..call.k] + was.left[call.k + 1..]
                     else now == was)
  {
    assert (calls + [call])[..|calls|] == calls;
  }

  // ---------- first in, first out ----------

  /** The items whose number is not in `gone`, in order. */
  function Survivors<T>(s: seq<T>, gone: set<nat>): seq<T> {
    if s == [] then []
    else Survivors(s[..|s| - 1], gone) + if |s| - 1 in gone then [] else [s[|s| - 1]]
  }

  /** How many of the first `n` numbers survive. */
  function Alive(gone: set<nat>, n: nat): nat {
    if n == 0 then 0 else Alive(gone, n - 1) + if n - 1 in gone then 0 else 1
  }

  /** The number below `n` that survives as number `p` of the survivors. */
  function NumberOf(gone: set<nat>, n: nat, p: nat): nat {
    if n == 0 then 0 else if p < Alive(gone, n - 1) then NumberOf(gone, n - 1, p) else n - 1
  }

  lemma {:induction false} NumberOfIs(gone: set<nat>, n: nat, p: nat)
    requires p < Alive(gone, n)
    ensures var e := NumberOf(gone, n, p); e < n && e !in gone && Alive(gone, e) == p
  {
    if p < Alive(gone, n - 1) {
      NumberOfIs(gone, n - 1, p);
    }
  }

  lemma {:induction false} SurvivorCount<T>(s: seq<T>, gone: set<nat>)
    ensures |Survivors(s, gone)| == Alive(gone, |s|)
  {
    if s != [] {
      SurvivorCount(s[..|s| - 1], gone);
    }
  }

  lemma {:induction false} LaterGone<T>(s: seq<T>, gone: set<nat>, e: nat)
    requires e >= |s|
    ensures Survivors(s, gone + {e}) == Survivors(s, gone)
  {
    if s != [] {
      LaterGone(s[..|s| - 1], gone, e);
    }
  }

  /** When one more item is gone, exactly its place among the survivors is. */
  lemma {:induction false} OneMoreGone<T>(s: seq<T>, gone: set<nat>, p: nat)
    requires p < |Survivors(s, gone)|
    ensures var e, t := NumberOf(gone, |s|, p), Survivors(s, gone);
            && e < |s| && e !in gone && s[e] == t[p]
            && Survivors(s, gone + {e}) == t[..p] + t[p + 1..]
  {
    var n := |s| - 1;
    var init, e := s[..n], NumberOf(gone, |s|, p);
    var t := Survivors(init, gone);
    SurvivorCount(init, gone);
    if p < |t| {
      OneMoreGone(init, gone, p);
      assert n in gone + {e} <==> n in gone;
      assert forall x :: (t + [x])[..p] + (t + [x])[p + 1..] == t[..p] + t[p + 1..] + [x];
    } else {
      LaterGone(init, gone, n);
    }
  }

  /** The items that arrived, without those gone, are those handed out and those left, in one order. */
  ghost predicate InOrder<T>(r: Record<T>) {
    Survivors(r.all, r.gone) == r.out + r.left && forall e :: e in r.gone ==> e < |r.all|
  }

  lemma {:induction false} NoneGone<T>(s: seq<T>)
    ensures Survivors(s, {}) == s
  {
    if s != [] {
      NoneGone(s[..|s| - 1]);
    }
  }

  lemma EnqueueInOrder<T>(r: Record<T>, size: nat, x: T)
    requires InOrder(r)
    ensures InOrder(Apply(r, size, Enqueue(x)))
  {
    assert (r.all + [x])[..|r.all|] == r.all;
    assert r.out + (r.left + [x]) == (r.out + r.left) + [x];
  }

  lemma Cut<T>(t: seq<T>, a: seq<T>, b: seq<T>, k: nat)
    requires t == a + b && k < |b|
    ensures t[|a| + k] == b[k] && t[..|a| + k] + t[|a| + k + 1..] == a + (b[..k] + b[k + 1..])
  {
  }

  /** The item deleted at position `k` is the one that stands there, with the items handed out and k
      others before it. */
  lemma RemoveInOrder<T>(r: Record<T>, size: nat, k: nat)
    requires InOrder(r) && k < |r.left|
    ensures InOrder(Apply(r, size, RemoveAt(k)))
    ensures exists e :: e !in r.gone && e < |r.all| && Apply(r, size, RemoveAt(k)).gone == r.gone + {e}
                        && r.all[e] == r.left[k] && Alive(r.gone, e) == |r.out| + k
  {
    var t, p := Survivors(r.all, r.gone), |r.out| + k;
    var e := NumberOf(r.gone, |r.all|, p);
    Cut(t, r.out, r.left, k);
    OneMoreGone(r.all, r.gone, p);
    SurvivorCount(r.all, r.gone);
    NumberOfIs(r.gone, |r.all|, p);
    assert e !in r.gone && e < |r.all|;
  }

  /** First in, first out, without loss: in every run the items that were there or were accepted, without
      those deleted at their positions, are those handed out and those left, in the same order. */
  lemma {:induction false} FirstInFirstOut<T>(s: seq<T>, size: nat, calls: seq<Call<T>>)
    ensures var r := Run(s, size, calls);
            Survivors(r.all, r.gone) == r.out + r.left && forall e :: e in r.gone ==> e < |r.all|
    decreases |calls|
  {
    if calls == [] {
      NoneGone(s);
      assert [] + s == s;
    } else {
      var r, call := Run(s, size, calls[..|calls| - 1]), calls[|calls| - 1];
      FirstInFirstOut(s, size, calls[..|calls| - 1]);
      match call {
        case Enqueue(x) =>
          EnqueueInOrder(r, size, x);
        case Dequeue =>
          assert r.left != [] ==> r.out + [r.left[0]] + r.left[1..] == r.out + r.left;
        case RemoveAt(k) =>
          if k < |r.left| {
            RemoveInOrder(r, size, k);
          }
      }
    }
  }

  /** Which item a run's next deletion takes. */
  lemma GoneOneMore<T>(s: seq<T>, size: nat, calls: seq<Call<T>>, call: Call<T>)
    ensures var was, now := Run(s, size, calls), Run(s, size, calls + [call]);
            if call.RemoveAt? && call.k < |was.left| then
              exists e :: e !in was.gone && e < |was.all| && now.gone == was.gone + {e}
                          && was.all[e] == was.left[call.k] && Alive(was.gone, e) == |was.out| + call.k
            else now.gone == was.gone
  {
    assert (calls + [call])[..|calls|] == calls;
    if call.RemoveAt? && call.k < |Run(s, size, calls).left| {
      FirstInFirstOut(s, size, calls);
      RemoveInOrder(Run(s, size, calls), size, call.k);
    }
  }

  class Queue<T> {
    const item: array<T>
    const size: nat
    var front: nat
    var back: nat
    var len: nat

    constructor (buffer: array<T>, siz: nat)
      requires siz <= buffer.Length
      ensures Valid() && item == buffer && size == siz && Contents() == []
    {
      item, size := buffer, siz;
      front, back, len := 0, 0, 0;
    }

    /** `back` is the slot after the last item; in a full ring that is `front` again, so only `len`
        tells a full ring from an empty one. */
    ghost predicate Valid()
      reads this
    {
      && size <= item.Length && len <= size
      && if size == 0 then front == back == 0
         else front < size && back == if front + len < size then front + len else front + len - size
    }

    lemma BackIsRemainder()
      requires Valid() && size > 0
      ensures back == (front + len) % size
      ensures back == front <==> IsEmpty() || IsFull()
    {
      Wraps(front + len, size);
    }

    /** Position `k` of the sequence is the slot k places after `front`, around the ring. */
    lemma ContentsAt(k: nat)
      requires Valid() && k < len
      ensures Contents()[k] == item[(front + k) % size]
    {
      Wraps(front + k, size);
    }

    ghost function Contents(): (s: seq<T>)
      requires Valid()
      reads this, item
      ensures |s| == len
    {
      Ring(item[..size], front, len)
    }

    predicate IsEmpty()
      reads this
    {
      len == 0
    }

    predicate IsFull()
      reads this
    {
      len == size
    }

    /** Appends, unless the ring is full. */
    method Enqueue(data: T) returns (ok: bool)
      requires Valid()
      modifies this`back, this`len, item
      ensures Valid() && ok == (|old(Contents())| < size)
      ensures Contents() == if ok then old(Contents()) + [data] else old(Contents())
      ensures !ok ==> unchanged(this) && unchanged(item)
    {
      if IsFull() {
        ok := false;
      } else {
        Wraps(back + 1, size);
        item[back] := data;
        back := (back + 1) % size;
        len := len + 1;
        ok := true;
      }
    }

    /** Takes the first item, unless the ring is empty. */
    method Dequeue() returns (ok: bool, data: seq<T>)
      requires Valid()
      modifies this`front, this`len
      ensures Valid() && ok == (|old(Contents())| > 0)
      ensures ok ==> data == [old(Contents())[0]] && Contents() == old(Contents())[1..]
      ensures !ok ==> data == [] && Contents() == old(Contents()) && unchanged(this)
    {
      if IsEmpty() {
        ok, data := false, [];
      } else {
        Wraps(front + 1, size);
        data := [item[front]];
        front := (front + 1) % size;
        len := len - 1;
        ok := true;
      }
    }

    // ---------- iteration ----------

    /** The iterator stands before the item of position `k`, or at the end when there is none. */
    ghost predicate Stands(it: Iter, k: nat)
      requires Valid()
      reads this
    {
      k <= len && it == if k < len then Slot(At(front, k, size)) else End
    }

    method Begin() returns (it: Iter)
      requires Valid()
      ensures Stands(it, 0)
    {
      it := if IsEmpty() then End else Slot(front);
    }

    method Get(it: Iter, ghost k: nat) returns (x: T)
      requires Valid() && k < len && Stands(it, k)
      ensures x == Contents()[k]
    {
      x := item[it.index];
    }

    /** The slot that follows the slot of position `k`; it is `back` exactly for the last position,
        also in a full ring. */
    method Following(i: nat, ghost k: nat) returns (next: nat)
      requires Valid() && k < len && i == At(front, k, size)
      ensures next == if k + 1 < size then At(front, k + 1, size) else front
      ensures next == back <==> k + 1 == len
    {
      Wraps(i + 1, size);
      next := (i + 1) % size;
    }

    method Next(it: Iter, ghost k: nat) returns (it': Iter)
      requires Valid() && k < len && Stands(it, k)
      ensures Stands(it', k + 1)
    {
      var i := Following(it.index, k);
      it' := if i == back then End else Slot(i);
    }

    /** Slot `i` is the slot of position `j` and `next` the one that follows it. */
    ghost predicate Pair(i: nat, next: nat, j: nat)
      requires Valid() && j < len
      reads this
    {
      && i == At(front, j, size)
      && next == (if j + 1 < size then At(front, j + 1, size) else front)
      && (next == back <==> j + 1 == len)
    }

    /** One pass of the shifting loop: the item of position `j + 1` is copied to position `j`. */
    method MoveDown(i: nat, next: nat, ghost j: nat) returns (next': nat)
      requires Valid() && j + 1 < len && Pair(i, next, j)
      modifies item
      ensures Valid() && Pair(next, next', j + 1)
      ensures Contents()[j] == old(Contents()[j + 1])
      ensures forall p :: 0 <= p < len && p != j ==> Contents()[p] == old(Contents())[p]
    {
      RingUpdate(item[..size], front, len, j, item[next]);
      item[i] := item[next];
      next' := Following(next, j + 1);
    }

    /** Moves every item behind position `k` one slot down; returns the last item's slot. */
    method ShiftDown(idx: nat, ghost k: nat) returns (i: nat)
      requires Valid() && k < len && idx == At(front, k, size)
      modifies item
      ensures Valid() && Contents() == Shifting(old(Contents()), k, len - 1) && i == At(front, len - 1, size)
    {
      ghost var was, j := Contents(), k;
      i := idx;
      var next := Following(i, k);
      while next != back
        invariant Valid() && k <= j < len && Pair(i, next, j)
        invariant Moved(Contents(), was, k, j)
        decreases len - j
      {
        ghost var now := Contents();
        var next' := MoveDown(i, next, j);
        MovedOneMore(now, Contents(), was, k, j);
        i, next := next, next';
        j := j + 1;
      }
      ShiftingIs(Contents(), was, k, j);
    }

    /** Removes the item the iterator stands before; the iterator then stands before the item that
        followed it. The items behind it each move one slot down. */
    method Remove(it: Iter, ghost k: nat) returns (it': Iter)
      requires Valid() && k < len && Stands(it, k)
      modifies this`back, this`len, item
      ensures Valid() && Contents() == old(Contents())[..k] + old(Contents())[k + 1..] && Stands(it', k)
    {
      ghost var was := Contents();
      ShiftedIsWithout(was, k);
      var i := it.index;
      it' := it;
      var next := Following(i, k);
      if next == back {
        it' := End;
      } else {
        i := ShiftDown(i, k);
      }
      RingPrefix(item[..size], front, len);
      back := i;
      len := len - 1;
    }

    // ---------- iterate and remove ----------

    /** One step of an iterate-and-remove loop: `kept` has been stepped over, `rest` is still to come. */
    method StepOrRemove(it: Iter, drop: bool, ghost kept: seq<T>, ghost rest: seq<T>) returns (it': Iter)
      requires Valid() && rest != [] && Contents() == kept + rest && Stands(it, |kept|)
      modifies this`back, this`len, item
      ensures Valid() && Contents() == (if drop then kept else kept + [rest[0]]) + rest[1..]
      ensures Stands(it', |kept| + if drop then 0 else 1)
    {
      TakeNext(kept, rest);
      if drop {
        it' := Remove(it, |kept|);
      } else {
        it' := Next(it, |kept|);
      }
    }

    /** A loop that removes the items for which `drop` holds and steps over the others meets every
        item once, in order, and leaves exactly the others, in order. */
    method RemoveIf(drop: T -> bool) returns (visited: seq<T>)
      requires Valid()
      modifies this`back, this`len, item
      ensures Valid() && visited == old(Contents()) && Contents() == Kept(old(Contents()), drop)
    {
      visited := [];
      ghost var kept, rest := [], Contents();
      var it := Begin();
      while it != End
        invariant Valid() && Contents() == kept + rest && Stands(it, |kept|)
        invariant kept == Kept(visited, drop) && visited + rest == old(Contents())
        decreases |rest|
      {
        var x := Get(it, |kept|);
        TakeNext(kept, rest);
        TakeNext(visited, rest);
        KeptOneMore(visited, x, drop);
        it := StepOrRemove(it, drop(x), kept, rest);
        visited := visited + [x];
        kept, rest := if drop(x) then kept else kept + [x], rest[1..];
      }
    }

    // ---------- runs ----------

    /** Removal at position `k` by an iterator that steps there from the front. */
    method RemoveAt(k: nat)
      requires Valid()
      modifies this`back, this`len, item
      ensures Valid()
      ensures k < |old(Contents())| ==> Contents() == old(Contents())[..k] + old(Contents())[k + 1..]
      ensures k >= |old(Contents())| ==> Contents() == old(Contents())
    {
      var it := Begin();
      var j := 0;
      while it != End && j < k
        invariant Valid() && Contents() == old(Contents()) && Stands(it, j) && j <= k
      {
        it := Next(it, j);
        j := j + 1;
      }
      if it != End {
        it := Remove(it, j);
      }
    }

    /** One call of a run, and the items that it takes in and hands out. */
    method Perform(call: Call<T>, ghost r: Record<T>) returns (taken: seq<T>, handed: seq<T>)
      requires Valid() && Contents() == r.left
      modifies this, item
      ensures Valid() && Contents() == Apply(r, size, call).left
      ensures Apply(r, size, call).out == r.out + handed && Apply(r, size, call).all == r.all + taken
    {
      taken, handed := [], [];
      match call {
        case Enqueue(x) =>
          var ok := Enqueue(x);
          taken := if ok then [x] else [];
        case Dequeue =>
          var ok, data := Dequeue();
          handed := data;
        case RemoveAt(k) =>
          RemoveAt(k);
      }
    }

    /** Every run of calls acts on the queue as on a bounded sequence: what was there and what enqueue took,
        without the items deleted at their positions, is what dequeue handed out and what is left. */
    method RunCalls(calls: seq<Call<T>>) returns (accepted: seq<T>, out: seq<T>, ghost gone: set<nat>)
      requires Valid()
      modifies this, item
      ensures Valid() && Run(old(Contents()), size, calls) == Record(Contents(), out, old(Contents()) + accepted, gone)
      ensures Survivors(old(Contents()) + accepted, gone) == out + Contents()
    {
      ghost var s := Contents();
      ghost var r := Start(s);
      accepted, out := [], [];
      assert s + accepted == s;
      var i := 0;
      while i < |calls|
        invariant i <= |calls| && Valid() && Run(s, size, calls[..i]) == r
        invariant r.left == Contents() && r.out == out && r.all == s + accepted
      {
        assert calls[..i + 1][..i] == calls[..i];
        var taken, handed := Perform(calls[i], r);
        Assoc(s, accepted, taken);
        accepted, out := accepted + taken, out + handed;
        r := Apply(r, size, calls[i]);
        i := i + 1;
      }
      assert calls[..|calls|] == calls;
      gone := r.gone;
      FirstInFirstOut(s, size, calls);
    }
  }

  lemma Assoc<T>(a: seq<T>, b: seq<T>, c: seq<T>)
    ensures a + (b + c) == (a + b) + c
  {
  }

  /** The two ways to take the first of the items still to come. */
  lemma TakeNext<T>(kept: seq<T>, rest: seq<T>)
    requires rest != []
    ensures (kept + rest)[|kept|] == rest[0]
    ensures Without(kept + rest, |kept|) == kept + rest[1..]
    ensures kept + rest == kept + [rest[0]] + rest[1..]
  {
  }

  function Kept<T>(s: seq<T>, drop: T -> bool): seq<T> {
    if s == [] then [] else if drop(s[0]) then Kept(s[1..], drop) else [s[0]] + Kept(s[1..], drop)
  }

  lemma {:induction false} KeptOneMore<T>(s: seq<T>, x: T, drop: T -> bool)
    ensures Kept(s + [x], drop) == Kept(s, drop) + (if drop(x) then [] else [x])
  {
    if s != [] {
      assert (s + [x])[1..] == s[1..] + [x];
      KeptOneMore(s[1..], x, drop);
    }
  }

  lemma KeptFirst<T>(x: T, rest: seq<T>, drop: T -> bool)
    ensures Kept([x] + rest, drop) == (if drop(x) then [] else [x]) + Kept(rest, drop)
  {
    assert ([x] + rest)[1..] == rest;
  }

  /** Keeping works item by item, in order; this determines it for every sequence. */
  lemma {:induction false} KeptParts<T>(a: seq<T>, b: seq<T>, drop: T -> bool)
    ensures Kept(a + b, drop) == Kept(a, drop) + Kept(b, drop)
  {
    if a == [] {
      assert a + b == b;
    } else {
      var x, rest := a[0], a[1..];
      KeptParts(rest, b, drop);
      KeptFirst(x, rest, drop);
      KeptFirst(x, rest + b, drop);
      assert a == [x] + rest && a + b == [x] + (rest + b);
      var front := if drop(x) then [] else [x];
      assert front + (Kept(rest, drop) + Kept(b, drop)) == (front + Kept(rest, drop)) + Kept(b, drop);
    }
  }

  lemma KeptOne<T>(x: T, drop: T -> bool)
    ensures Kept([x], drop) == if drop(x) then [] else [x]
  {
    assert [x][1..] == [];
  }
}
