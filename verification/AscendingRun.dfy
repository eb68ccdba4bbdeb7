/** The trees that inserting keys in ascending order makes. Such a run reaches the tree that overflows the
    ancestor stack with the fewest nodes, so the bound on the capacity is exact for the library's own
    trees. */
module AscendingRun {
  import opened Trees
  import opened Zippers
  import opened InsertSpec
  import opened SearchSpec
  import opened PathCapacity

  // ---------- a counter ----------

  datatype Digit = One | Two | Three

  /** The right spine of such a tree works as a counter: every level of black height holds a digit, the
      lowest level first. */
  datatype Counter = Zero | Digits(digit: Digit, rest: Counter)

  function Increment(c: Counter): Counter {
    if c.Zero? then Digits(One, Zero)
    else match c.digit
      case One => Digits(Two, c.rest)
      case Two => Digits(Three, c.rest)
      case Three => Digits(Two, Increment(c.rest))
  }

  function Increments(c: Counter, n: nat): Counter {
    if n == 0 then c else Increment(Increments(c, n - 1))
  }

  /** What the digit `d` at a place worth `p` stands for. */
  function Worth(d: Digit, p: nat): nat {
    match d
    case One => p
    case Two => 2 * p
    case Three => 3 * p
  }

  /** The number that the counter shows, in units of 2^b: so many keys are above black height `b`. */
  function Count(c: Counter, b: nat): nat {
    if c.Zero? then 0 else Count(c.rest, b + 1) + Worth(c.digit, Pow2(b))
  }

  lemma {:induction false} IncrementCounts(c: Counter, b: nat)
    ensures Count(Increment(c), b) == Count(c, b) + Pow2(b)
  {
    if c.Digits? && c.digit == Three {
      IncrementCounts(c.rest, b + 1);
    }
  }

  lemma {:induction false} IncrementsCount(n: nat)
    ensures Count(Increments(Zero, n), 0) == n
  {
    if n > 0 {
      IncrementsCount(n - 1);
      IncrementCounts(Increments(Zero, n - 1), 0);
    }
  }

  /** The counter with `m` digits 2. */
  function Twos(m: nat): Counter {
    if m == 0 then Zero else Digits(Two, Twos(m - 1))
  }

  lemma {:induction false} IncrementsSplit(c: Counter, m: nat, n: nat)
    ensures Increments(c, m + n) == Increments(Increments(c, m), n)
  {
    if n > 0 {
      IncrementsSplit(c, m, n - 1);
    }
  }

  /** Two increments turn the lowest digit from 2 to 3 and back, with a carry. */
  lemma {:induction false} EvenIncrements(rest: Counter, n: nat)
    ensures Increments(Digits(Two, rest), 2 * n) == Digits(Two, Increments(rest, n))
  {
    if n > 0 {
      EvenIncrements(rest, n - 1);
      var c := Increments(Digits(Two, rest), 2 * n - 2);
      assert Increments(Digits(Two, rest), 2 * n - 1) == Increment(c);
      assert Increment(c) == Digits(Three, Increments(rest, n - 1));
    }
  }

  lemma {:induction false} AllTwos(m: nat)
    ensures Increments(Zero, Pow2(m + 1) - 2) == Twos(m)
  {
    if m > 0 {
      var n := Pow2(m) - 2;
      AllTwos(m - 1);
      IncrementsSplit(Zero, 2, 2 * n);
      assert Increments(Zero, 1) == Digits(One, Zero) && Increments(Zero, 2) == Digits(Two, Zero);
      EvenIncrements(Zero, n);
    }
  }

  // ---------- the spine is that counter ----------

  function Node(left: Tree<int>, k: int, color: Color, right: Tree<int>): Tree<int> {
    Branch(left, Item(k, k), color, right)
  }

  /** A complete tree below a red root, with consecutive keys from `k` on. */
  function RedFull(b: nat, k: int): Tree<int> {
    Node(Full(b, k), k + Pow2(b) - 1, Red, Full(b, k + Pow2(b)))
  }

  function SpineFrame(left: Tree<int>, k: int, color: Color): Frame<int> {
    Frame(Item(k, k), color, Right, left)
  }

  /** The part of the spine for the digit `d`: a black node; a black and a red one; the same with a
      red left child. Its keys start at `s`. */
  function Level(d: Digit, b: nat, s: int, up: Ctx<int>): Ctx<int> {
    var p := Pow2(b);
    match d
    case One => In(SpineFrame(Full(b, s), s + p - 1, Black), up)
    case Two => In(SpineFrame(Full(b, s + p), s + 2 * p - 1, Red), In(SpineFrame(Full(b, s), s + p - 1, Black), up))
    case Three =>
      var top := SpineFrame(RedFull(b, s), s + 2 * p - 1, Black);
      In(SpineFrame(Full(b, s + 2 * p), s + 3 * p - 1, Red), In(top, up))
  }

  /** What one level and everything below it form. */
  function LevelTree(d: Digit, b: nat, s: int, below: Tree<int>): (t: Tree<int>)
    ensures t.Branch? && t.color.Black?
  {
    var p := Pow2(b);
    match d
    case One => Node(Full(b, s), s + p - 1, Black, below)
    case Two => Node(Full(b, s), s + p - 1, Black, Node(Full(b, s + p), s + 2 * p - 1, Red, below))
    case Three => Node(RedFull(b, s), s + 2 * p - 1, Black, Node(Full(b, s + 2 * p), s + 3 * p - 1, Red, below))
  }

  lemma PlugLevel(d: Digit, b: nat, s: int, up: Ctx<int>, below: Tree<int>)
    ensures Plug(Level(d, b, s, up), below) == Plug(up, LevelTree(d, b, s, below))
  {
    var c := Level(d, b, s, up);
    if d != One {
      assert Plug(c, below) == Plug(c.up, Fill(c.frame, below));
      assert Plug(c.up, Fill(c.frame, below)) == Plug(up, Fill(c.up.frame, Fill(c.frame, below)));
    }
  }

  /** The spine above black height `b`. */
  function Spine(c: Counter, b: nat): Ctx<int> {
    if c.Zero? then Top else Level(c.digit, b, Count(c.rest, b + 1), Spine(c.rest, b + 1))
  }

  lemma {:induction false} SpineRootIsBlack(c: Counter, b: nat, t: Tree<int>)
    requires c.Digits? || IsBlack(t)
    ensures IsBlack(Plug(Spine(c, b), t))
    decreases c
  {
    if c.Digits? {
      var s := Count(c.rest, b + 1);
      PlugLevel(c.digit, b, s, Spine(c.rest, b + 1), t);
      SpineRootIsBlack(c.rest, b + 1, LevelTree(c.digit, b, s, t));
    }
  }

  // ---------- an insertion counts up ----------

  /** The red subtree that carries 2^b keys, from `s` on, and below them whatever comes after. */
  function Carry(b: nat, s: int, below: Tree<int>): (t: Tree<int>)
    ensures IsRed(t)
  {
    Node(Full(b, s), s + Pow2(b) - 1, Red, below)
  }

  /** A carry below the digit 1 has a black parent; below the digit 2 it turns the subtree. Either way
      the digit grows by one. */
  lemma CarryStops(d: Digit, e: Digit, b: nat, s: int, k: int, up: Ctx<int>, below: Tree<int>)
    requires (d == One && e == Two) || (d == Two && e == Three)
    requires k == s + Worth(d, Pow2(b)) && IsBlack(Plug(up, LevelTree(e, b, s, below)))
    ensures InsertFix(Level(d, b, s, up), Carry(b, k, below)) == Plug(Level(e, b, s, up), below)
  {
    var c, t := Level(d, b, s, up), Carry(b, k, below);
    PlugLevel(e, b, s, up, below);
    if d == Two {
      assert IsBlack(Full(b, s));
      assert InsertTurn(c.up.frame, c.frame, t) == LevelTree(Three, b, s, below);
    }
  }

  /** A carry below the digit 3 exchanges colours: the digit becomes 2 and the next level gets a carry. */
  lemma CarryGoesOn(b: nat, s: int, s': int, k: int, up: Ctx<int>, up': Ctx<int>, below: Tree<int>)
    requires s' == s + 2 * Pow2(b) && k == s + 3 * Pow2(b)
    requires var rest := LevelTree(Two, b, s', below); InsertFix(up, Carry(b + 1, s, rest)) == Plug(up', rest)
    ensures InsertFix(Level(Three, b, s, up), Carry(b, k, below)) == Plug(Level(Two, b, s', up'), below)
  {
    var c, t := Level(Three, b, s, up), Carry(b, k, below);
    PlugLevel(Two, b, s', up', below);
    assert InsertLift(c.up.frame, c.frame, t) == Carry(b + 1, s, LevelTree(Two, b, s', below));
  }

  lemma FirstDigit(b: nat, below: Tree<int>)
    ensures InsertFix(Spine(Zero, b), Carry(b, Count(Zero, b), below)) == Plug(Spine(Digits(One, Zero), b), below)
  {
    PlugLevel(One, b, 0, Top, below);
  }

  lemma SmallDigit(d: Digit, e: Digit, rest: Counter, b: nat, below: Tree<int>)
    requires (d == One && e == Two) || (d == Two && e == Three)
    ensures var c, c' := Digits(d, rest), Digits(e, rest);
            InsertFix(Spine(c, b), Carry(b, Count(c, b), below)) == Plug(Spine(c', b), below)
  {
    var s := Count(rest, b + 1);
    SpineRootIsBlack(rest, b + 1, LevelTree(e, b, s, below));
    CarryStops(d, e, b, s, Count(Digits(d, rest), b), Spine(rest, b + 1), below);
  }

  lemma GreatDigit(rest: Counter, rest': Counter, b: nat, below: Tree<int>)
    requires Count(rest', b + 1) == Count(rest, b + 1) + 2 * Pow2(b)
    requires var t := LevelTree(Two, b, Count(rest', b + 1), below);
             InsertFix(Spine(rest, b + 1), Carry(b + 1, Count(rest, b + 1), t)) == Plug(Spine(rest', b + 1), t)
    ensures var c, c' := Digits(Three, rest), Digits(Two, rest');
            InsertFix(Spine(c, b), Carry(b, Count(c, b), below)) == Plug(Spine(c', b), below)
  {
    var s, s', k := Count(rest, b + 1), Count(rest', b + 1), Count(Digits(Three, rest), b);
    CarryGoesOn(b, s, s', k, Spine(rest, b + 1), Spine(rest', b + 1), below);
  }

  /** A carry into the spine increments the counter. */
  lemma {:induction false} CarryIncrements(c: Counter, b: nat, below: Tree<int>)
    ensures InsertFix(Spine(c, b), Carry(b, Count(c, b), below)) == Plug(Spine(Increment(c), b), below)
    decreases c
  {
    match c
    case Zero =>
      FirstDigit(b, below);
    case Digits(Three, rest) =>
      var rest' := Increment(rest);
      IncrementCounts(rest, b + 1);
      CarryIncrements(rest, b + 1, LevelTree(Two, b, Count(rest', b + 1), below));
      GreatDigit(rest, rest', b, below);
    case Digits(d, rest) =>
      SmallDigit(d, if d == One then Two else Three, rest, b, below);
  }

  // ---------- the run ----------

  /** The context takes every search for `k` to the right, down to its hole. */
  predicate RightOf(c: Ctx<int>, k: int) {
    c.In? ==> c.frame.dir == Right && c.frame.item.key < k && RightOf(c.up, k)
  }

  lemma {:induction false} SpineIsRight(c: Counter, b: nat, k: int)
    requires k >= Count(c, b)
    ensures RightOf(Spine(c, b), k)
    decreases c
  {
    if c.Digits? {
      SpineIsRight(c.rest, b + 1, k);
      assert Spine(c, b).up.In? && c.digit != One ==> RightOf(Spine(c, b).up, k);
    }
  }

  lemma {:induction false} SeekRight(c: Ctx<int>, t: Tree<int>, k: int)
    requires RightOf(c, k)
    ensures Seek(Plug(c, t), k, Top) == Seek(t, k, c)
    decreases c
  {
    if c.In? {
      SeekRight(c.up, Fill(c.frame, t), k);
    }
  }

  /** The tree of `n` ascending insertions. */
  function Grown(n: nat): Tree<int> { Plug(Spine(Increments(Zero, n), 0), Leaf) }

  /** The next key belongs at the end of the spine. */
  lemma GrownGrows(n: nat)
    ensures Inserted(Grown(n), Item(n, n)) == Grown(n + 1)
  {
    var c := Increments(Zero, n);
    IncrementsCount(n);
    SpineIsRight(c, 0, n);
    SeekRight(Spine(c, 0), Leaf, n);
    assert Carry(0, n, Leaf) == Single(Item(n, n));
    CarryIncrements(c, 0, Leaf);
  }

  /** The calls that insert the keys below `n` in ascending order. */
  function Ascending(n: nat): (calls: seq<Call<int>>)
    ensures |calls| == n
  {
    seq(n, i => Insert(Item(i, i)))
  }

  /** They make the tree `Grown(n)`. */
  lemma {:induction false} AscendingGrows(n: nat)
    ensures Run(Leaf, Ascending(n)).0 == Grown(n)
  {
    if n > 0 {
      assert Ascending(n)[..n - 1] == Ascending(n - 1);
      AscendingGrows(n - 1);
      GrownGrows(n - 1);
    }
  }

  lemma LevelIsTall(b: nat, s: int, k: int)
    requires k == s + 2 * Pow2(b)
    ensures LevelTree(Two, b, s, Tall(b, k)) == Tall(b + 1, s)
  {
  }

  /** When all digits are 2, the tree is the thinnest of its height. */
  lemma {:induction false} SpineIsTall(m: nat, b: nat, below: Tree<int>, height: nat)
    requires below == Tall(b, Count(Twos(m), b)) && height == b + m
    ensures Plug(Spine(Twos(m), b), below) == Tall(height, 0)
    decreases m
  {
    if m > 0 {
      var rest := Twos(m - 1);
      var s := Count(rest, b + 1);
      LevelIsTall(b, s, Count(Twos(m), b));
      PlugLevel(Two, b, s, Spine(rest, b + 1), below);
      SpineIsTall(m - 1, b + 1, LevelTree(Two, b, s, below), height);
    }
  }

  lemma GrownIsTall(m: nat, n: nat)
    requires n == Pow2(m + 1) - 2
    ensures Grown(n) == Tall(m, 0)
  {
    AllTwos(m);
    SpineIsTall(m, 0, Leaf, m);
  }

  /** So 2^(m+1) - 2 ascending insertions build the thinnest tree of height 2m. */
  lemma AscendingBuildsTall(m: nat)
    ensures Run(Leaf, Ascending(Pow2(m + 1) - 2)).0 == Tall(m, 0)
  {
    var n := Pow2(m + 1) - 2;
    AscendingGrows(n);
    GrownIsTall(m, n);
  }

  // ---------- the exact capacity ----------

  /** Inserting 0, 1, 2, ... stays inside the stack while fewer than 2^(capacity/2 + 1) - 2 nodes are in
      the tree. The next insertion is the first to overflow. */
  lemma AscendingOverflow(capacity: nat, n: nat)
    requires capacity % 2 == 0 && n + 2 <= Pow2(capacity / 2 + 1)
    ensures Depth(Seek(Run(Leaf, Ascending(n)).0, n, Top).ctx) < capacity <==> n + 2 < Pow2(capacity / 2 + 1)
  {
    var t := Run(Leaf, Ascending(n)).0;
    RunSize(Ascending(n));
    MapRunSize(Ascending(n));
    if n + 2 < Pow2(capacity / 2 + 1) {
      FewNodesFit(t, capacity);
      SeekDepth(t, n);
    } else {
      AscendingBuildsTall(capacity / 2);
      TallSearch(capacity / 2, 0, n, Top);
    }
  }

  /** The stack's capacity suffices for every search in every tree of at most `n` nodes exactly when
      n is below 2^(capacity/2 + 1) - 2. Counting only the trees that calls can make, the same holds. */
  lemma CapacityIsExact(capacity: nat, n: nat)
    requires capacity % 2 == 0
    ensures (forall t: Tree<int>, k: int :: Good(t) && Size(t) <= n ==> Depth(Seek(t, k, Top).ctx) < capacity)
            <==> n + 2 < Pow2(capacity / 2 + 1)
    ensures (forall calls: seq<Call<int>>, k: int ::
               Size(Run(Leaf, calls).0) <= n ==> Depth(Seek(Run(Leaf, calls).0, k, Top).ctx) < capacity)
            <==> n + 2 < Pow2(capacity / 2 + 1)
  {
    if n + 2 < Pow2(capacity / 2 + 1) {
      forall t: Tree<int>, k: int | Good(t) && Size(t) <= n
        ensures Depth(Seek(t, k, Top).ctx) < capacity
      {
        FewNodesFit(t, capacity);
        SeekDepth(t, k);
      }
      forall calls: seq<Call<int>>
        ensures Good(Run(Leaf, calls).0)
      {
        RunSize(calls);
      }
    } else {
      var k := Pow2(capacity / 2 + 1) - 2;
      var calls := Ascending(k);
      var t := Run(Leaf, calls).0;
      RunSize(calls);
      MapRunSize(calls);
      AscendingOverflow(capacity, k);
      assert Good(t) && Size(t) <= n && Depth(Seek(t, k, Top).ctx) >= capacity;
    }
  }
}
