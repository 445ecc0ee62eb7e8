/** The parallel reduction of `teaching_threads/par_reduce.c`. */
module ParReduce {
  /** The sequential reduction: a left fold from `a`. */
  function Fold<T>(f: (T, T) -> T, a: T, list: seq<T>): T {
    if list == [] then a else f(Fold(f, a, list[..|list| - 1]), list[|list| - 1])
  }

  ghost predicate Associative<T(!new)>(f: (T, T) -> T) {
    forall a, b, c :: Associates(f, a, b, c)
  }

  predicate Associates<T(==)>(f: (T, T) -> T, a: T, b: T, c: T) {
    f(f(a, b), c) == f(a, f(b, c))
  }

  ghost predicate RightUnit<T(!new)>(f: (T, T) -> T, base: T) {
    forall a :: f(a, base) == a
  }

  /** The base does no harm where the parallel form uses it again: in front of the
      first chunk, and in front of every later one. */
  ghost predicate BaseVanishes<T(!new)>(f: (T, T) -> T, base: T) {
    && (forall x :: VanishesFirst(f, base, x))
    && (forall x, y :: VanishesLater(f, base, x, y))
  }

  predicate VanishesFirst<T(==)>(f: (T, T) -> T, base: T, x: T) {
    f(base, f(base, x)) == f(base, x)
  }

  predicate VanishesLater<T(==)>(f: (T, T) -> T, base: T, x: T, y: T) {
    f(f(base, x), f(base, y)) == f(f(base, x), y)
  }

  lemma RightUnitVanishes<T(!new)>(f: (T, T) -> T, base: T)
    requires Associative(f) && RightUnit(f, base)
    ensures BaseVanishes(f, base)
  {
    forall x, y ensures VanishesLater(f, base, x, y) {
      assert Associates(f, f(base, x), base, y);
    }
    forall x ensures VanishesFirst(f, base, x) {
      assert Associates(f, base, base, x);
    }
  }

  // ---- the chunks ----

  /** The double ceiling division: chunk length, then number of chunks. */
  function ChunkLength(length: nat, numThreads: nat): nat
    requires numThreads > 0
  {
    (length + numThreads - 1) / numThreads
  }

  function ChunkCount(length: nat, one: nat): nat
    requires one > 0
  {
    (length + one - 1) / one
  }

  lemma CeilingDivision(a: nat, b: nat)
    requires a > 0 && b > 0
    ensures (a + b - 1) / b >= 1
    ensures ((a + b - 1) / b - 1) * b < a <= (a + b - 1) / b * b
  {
    var q, r := (a + b - 1) / b, (a + b - 1) % b;
    assert a + b - 1 == q * b + r;
    assert (q - 1) * b == q * b - b;
  }

  lemma FactorsMonotone(x: nat, y: nat, b: nat)
    requires x <= y
    ensures x * b <= y * b
  {
    assert y * b == x * b + (y - x) * b;
  }

  function ChunkStart(length: nat, one: nat, i: nat): (s: nat)
    ensures s <= length
  {
    if i * one > length then length else i * one
  }

  /** There is a chunk for some and at most `numThreads` threads. */
  lemma ChunkCountInRange(length: nat, numThreads: nat)
    requires length > 0 && numThreads > 0
    ensures ChunkLength(length, numThreads) >= 1
    ensures 1 <= ChunkCount(length, ChunkLength(length, numThreads)) <= numThreads
  {
    var one := ChunkLength(length, numThreads);
    CeilingDivision(length, numThreads);
    CeilingDivision(length, one);
    assert numThreads * one == one * numThreads;
    var two := ChunkCount(length, one);
    if numThreads <= two - 1 { FactorsMonotone(numThreads, two - 1, one); }
  }

  /** The chunks tile the list and none is empty. */
  lemma ChunksTile(length: nat, one: nat, i: nat)
    requires length > 0 && one > 0 && i < ChunkCount(length, one)
    ensures i * one < length && ChunkStart(length, one, i) == i * one < ChunkStart(length, one, i + 1)
    ensures ChunkStart(length, one, 0) == 0 && ChunkStart(length, one, ChunkCount(length, one)) == length
  {
    CeilingDivision(length, one);
    FactorsMonotone(i, ChunkCount(length, one) - 1, one);
    assert (i + 1) * one == i * one + one;
  }

  function Chunk<T>(list: seq<T>, one: nat, i: nat): seq<T> {
    if i * one > |list| then []
    else assert (i + 1) * one == i * one + one; list[i * one..ChunkStart(|list|, one, i + 1)]
  }

  lemma PrefixGrows<T>(list: seq<T>, one: nat, k: nat)
    requires k > 0
    ensures list[..ChunkStart(|list|, one, k)] == list[..ChunkStart(|list|, one, k - 1)] + Chunk(list, one, k - 1)
  {
    assert k * one == (k - 1) * one + one;
  }

  /** What the joining loop has after the first `k` chunks. */
  function Joined<T>(f: (T, T) -> T, base: T, list: seq<T>, one: nat, k: nat): T {
    if k == 0 then base else f(Joined(f, base, list, one, k - 1), Fold(f, base, Chunk(list, one, k - 1)))
  }

  /** The elements of chunk `i`, for chunks of `one` elements. */
  function Part<T>(list: seq<T>, one: nat, i: nat): seq<T>
    requires i * one <= |list|
  {
    if i * one + one < |list| then list[i * one..i * one + one] else list[i * one..]
  }

  /** The joining loop folds the folds of the chunks, all of them from the base. */
  lemma {:induction false} JoinedMeans<T>(f: (T, T) -> T, base: T, list: seq<T>, one: nat, k: nat, folds: seq<T>)
    requires |folds| == k
    requires forall i :: 0 <= i < k ==> i * one <= |list| && folds[i] == Fold(f, base, Part(list, one, i))
    ensures Joined(f, base, list, one, k) == Fold(f, base, folds)
  {
    if k > 0 {
      assert (k - 1) * one + one == k * one;
      JoinedMeans(f, base, list, one, k - 1, folds[..k - 1]);
      assert Part(list, one, k - 1) == Chunk(list, one, k - 1);
    }
  }

  // ---- the parallel result ----

  /** A fold from `a` of a list that starts with `x`. */
  lemma {:induction false} FoldFrom<T(!new)>(f: (T, T) -> T, a: T, x: T, rest: seq<T>)
    requires Associative(f)
    ensures Fold(f, a, [x] + rest) == f(a, Fold(f, x, rest))
  {
    if rest == [] {
      assert [x] + rest == [x] && [x][..0] == [];
    } else {
      var front := rest[..|rest| - 1];
      FoldFrom(f, a, x, front);
      assert Associates(f, a, Fold(f, x, front), rest[|rest| - 1]);
      assert ([x] + rest)[..|rest|] == [x] + front;
    }
  }

  lemma {:induction false} FoldAppend<T>(f: (T, T) -> T, a: T, l: seq<T>, m: seq<T>)
    ensures Fold(f, a, l + m) == Fold(f, Fold(f, a, l), m)
  {
    if m == [] {
      assert l + m == l;
    } else {
      FoldAppend(f, a, l, m[..|m| - 1]);
      assert (l + m)[..|l + m| - 1] == l + m[..|m| - 1];
    }
  }

  /** Joining the first chunk to the base, or a later one to a fold from the base,
      folds in the chunk's elements. */
  lemma FirstChunkJoins<T(!new)>(f: (T, T) -> T, base: T, chunk: seq<T>)
    requires Associative(f) && BaseVanishes(f, base) && chunk != []
    ensures f(base, Fold(f, base, chunk)) == Fold(f, base, chunk)
  {
    FoldFrom(f, base, chunk[0], chunk[1..]);
    assert [chunk[0]] + chunk[1..] == chunk;
    assert VanishesFirst(f, base, Fold(f, chunk[0], chunk[1..]));
  }

  lemma LaterChunkJoins<T(!new)>(f: (T, T) -> T, base: T, prefix: seq<T>, chunk: seq<T>)
    requires Associative(f) && BaseVanishes(f, base) && prefix != [] && chunk != []
    ensures f(Fold(f, base, prefix), Fold(f, base, chunk)) == Fold(f, base, prefix + chunk)
  {
    FoldFrom(f, base, prefix[0], prefix[1..]);
    FoldFrom(f, base, chunk[0], chunk[1..]);
    FoldFrom(f, Fold(f, base, prefix), chunk[0], chunk[1..]);
    assert [prefix[0]] + prefix[1..] == prefix && [chunk[0]] + chunk[1..] == chunk;
    FoldAppend(f, base, prefix, chunk);
    assert VanishesLater(f, base, Fold(f, prefix[0], prefix[1..]), Fold(f, chunk[0], chunk[1..]));
  }

  /** After `k` chunks the joined value is the sequential fold of their elements. */
  lemma {:induction false} JoinedIsFold<T(!new)>(f: (T, T) -> T, base: T, list: seq<T>, one: nat, k: nat)
    requires Associative(f) && BaseVanishes(f, base)
    requires list != [] && one > 0 && k <= ChunkCount(|list|, one)
    ensures Joined(f, base, list, one, k) == Fold(f, base, list[..ChunkStart(|list|, one, k)])
  {
    if k == 0 {
      assert list[..0] == [];
    } else {
      JoinedIsFold(f, base, list, one, k - 1);
      var prefix, chunk := list[..ChunkStart(|list|, one, k - 1)], Chunk(list, one, k - 1);
      PrefixGrows(list, one, k);
      ChunksTile(|list|, one, k - 1);
      if prefix == [] {
        FirstChunkJoins(f, base, chunk);
        assert prefix + chunk == chunk;
      } else {
        LaterChunkJoins(f, base, prefix, chunk);
      }
    }
  }

  /** What `par_reduce` returns with two or more threads. */
  function Parallel<T>(f: (T, T) -> T, base: T, list: seq<T>, numThreads: nat): T
    requires list != [] && numThreads >= 2
  {
    ChunkCountInRange(|list|, numThreads);
    var one := ChunkLength(|list|, numThreads);
    Joined(f, base, list, one, ChunkCount(|list|, one))
  }

  /** `a` times `b` reaches `length`, and one less of `a` does not. */
  predicate JustReaches(a: nat, b: nat, length: nat) {
    (a - 1) * b < length <= a * b
  }

  lemma ChunksJustReach(length: nat, numThreads: nat, one: nat)
    requires length > 0 && numThreads > 0 && one == ChunkLength(length, numThreads)
    ensures one > 0 && JustReaches(one, numThreads, length) && JustReaches(ChunkCount(length, one), one, length)
  {
    CeilingDivision(length, numThreads);
    CeilingDivision(length, one);
  }

  lemma PartFolds<T>(f: (T, T) -> T, base: T, list: seq<T>, one: nat, k: nat) returns (folds: seq<T>)
    requires forall i :: 0 <= i < k ==> i * one <= |list|
    ensures |folds| == k && forall i :: 0 <= i < k ==> folds[i] == Fold(f, base, Part(list, one, i))
  {
    folds := seq(k, i requires 0 <= i < k => Fold(f, base, Part(list, one, i)));
  }

  /** For any reducer: the list is cut into parts of `one` elements, the least length for
      which `numThreads` parts are enough; the result folds the folds of the parts. */
  lemma ParallelMeans<T>(f: (T, T) -> T, base: T, list: seq<T>, numThreads: nat) returns (one: nat, folds: seq<T>)
    requires list != [] && numThreads >= 2
    ensures JustReaches(one, numThreads, |list|) && JustReaches(|folds|, one, |list|)
    ensures forall i :: 0 <= i < |folds| ==> i * one <= |list| && folds[i] == Fold(f, base, Part(list, one, i))
    ensures Parallel(f, base, list, numThreads) == Fold(f, base, folds)
  {
    one := ChunkLength(|list|, numThreads);
    ChunksJustReach(|list|, numThreads, one);
    var k := ChunkCount(|list|, one);
    forall i | 0 <= i < k ensures i * one <= |list| { ChunksTile(|list|, one, i); }
    folds := PartFolds(f, base, list, one, k);
    JoinedMeans(f, base, list, one, k, folds);
  }

  ghost predicate AlwaysAgrees<T(!new)>(f: (T, T) -> T, base: T) {
    forall list: seq<T>, n: nat :: list != [] && n >= 2 ==> Parallel(f, base, list, n) == Fold(f, base, list)
  }

  lemma FoldOne<T>(f: (T, T) -> T, a: T, x: T)
    ensures Fold(f, a, []) == a && Fold(f, a, [x]) == f(a, x)
  {
    assert [x][..0] == [];
  }

  /** With at least as many threads as elements, each gets one element. */
  lemma UnitChunks(length: nat, n: nat)
    requires 1 <= length <= n
    ensures ChunkLength(length, n) == 1 && ChunkCount(length, 1) == length
  {
  }

  lemma JoinedUnit<T>(f: (T, T) -> T, base: T, list: seq<T>, one: nat, k: nat)
    requires k < |list| && one == 1
    ensures Joined(f, base, list, one, k + 1) == f(Joined(f, base, list, one, k), f(base, list[k]))
  {
    assert Chunk(list, one, k) == [list[k]];
    FoldOne(f, base, list[k]);
  }

  lemma ParallelOfOne<T>(f: (T, T) -> T, base: T, list: seq<T>, n: nat)
    requires |list| == 1 && n >= 2
    ensures Parallel(f, base, list, n) == f(base, f(base, list[0]))
    ensures Fold(f, base, list) == f(base, list[0])
  {
    UnitChunks(|list|, n);
    JoinedUnit(f, base, list, ChunkLength(|list|, n), 0);
    FoldOne(f, base, list[0]);
    assert list == [list[0]];
  }

  lemma ParallelOfTwo<T>(f: (T, T) -> T, base: T, list: seq<T>, n: nat)
    requires |list| == 2 && n >= 2
    ensures Parallel(f, base, list, n) == f(f(base, f(base, list[0])), f(base, list[1]))
    ensures Fold(f, base, list) == f(f(base, list[0]), list[1])
  {
    UnitChunks(|list|, n);
    JoinedUnit(f, base, list, ChunkLength(|list|, n), 0);
    JoinedUnit(f, base, list, ChunkLength(|list|, n), 1);
    FoldOne(f, base, list[0]);
    assert list[..1] == [list[0]];
  }

  /** For an associative reducer the parallel result is the sequential one, on all lists
      and for all numbers of threads, exactly when the base vanishes. */
  lemma AgreesIffBaseVanishes<T(!new)>(f: (T, T) -> T, base: T)
    requires Associative(f)
    ensures AlwaysAgrees(f, base) <==> BaseVanishes(f, base)
  {
    if BaseVanishes(f, base) {
      forall list: seq<T>, n: nat | list != [] && n >= 2 ensures Parallel(f, base, list, n) == Fold(f, base, list) {
        ParallelIsFold(f, base, list, n);
      }
    }
    if AlwaysAgrees(f, base) {
      forall x ensures VanishesFirst(f, base, x) {
        ParallelOfOne(f, base, [x], 2);
      }
      forall x, y ensures VanishesLater(f, base, x, y) {
        ParallelOfTwo(f, base, [x, y], 2);
        assert VanishesFirst(f, base, x);
      }
    }
  }

  lemma ParallelIsFold<T(!new)>(f: (T, T) -> T, base: T, list: seq<T>, n: nat)
    requires Associative(f) && BaseVanishes(f, base) && list != [] && n >= 2
    ensures Parallel(f, base, list, n) == Fold(f, base, list)
  {
    var one := ChunkLength(|list|, n);
    ChunkCountInRange(|list|, n);
    ChunksTile(|list|, one, 0);
    JoinedIsFold(f, base, list, one, ChunkCount(|list|, one));
    assert list[..|list|] == list;
  }

  function Plus(x: int, y: int): int {
    x + y
  }

  /** Without the unit law the base is counted once more for every chunk: for sums the
      parallel result is right exactly when the base is 0. */
  lemma {:induction false} SumJoined(base: int, list: seq<int>, one: nat, k: nat)
    ensures Joined(Plus, base, list, one, k)
         == Fold(Plus, base, list[..ChunkStart(|list|, one, k)]) + k * base
  {
    if k == 0 {
      assert list[..0] == [];
    } else {
      SumJoined(base, list, one, k - 1);
      var prefix, chunk := list[..ChunkStart(|list|, one, k - 1)], Chunk(list, one, k - 1);
      PrefixGrows(list, one, k);
      FoldAppend(Plus, base, prefix, chunk);
      SumFromBase(Fold(Plus, base, prefix), base, chunk);
      assert k * base == (k - 1) * base + base;
    }
  }

  lemma {:induction false} SumFromBase(a: int, base: int, list: seq<int>)
    ensures Fold(Plus, a, list) == a + Fold(Plus, base, list) - base
  {
    if list != [] { SumFromBase(a, base, list[..|list| - 1]); }
  }

  lemma SumIffZeroBase(base: int, list: seq<int>, numThreads: nat)
    requires list != [] && numThreads >= 2
    ensures Parallel(Plus, base, list, numThreads) == Fold(Plus, base, list) <==> base == 0
  {
    var one := ChunkLength(|list|, numThreads);
    ChunkCountInRange(|list|, numThreads);
    ChunksTile(|list|, one, 0);
    var two := ChunkCount(|list|, one);
    SumJoined(base, list, one, two);
    assert list[..|list|] == list;
    if base > 0 { assert two * base > 0; } else if base < 0 { assert two * base < 0; }
  }

  /** `par_reduce_helper` */
  method Helper<T>(list: seq<T>, f: (T, T) -> T, base: T) returns (r: T)
    ensures r == Fold(f, base, list)
  {
    r := base;
    for i := 0 to |list|
      invariant r == Fold(f, base, list[..i])
    {
      assert list[..i + 1][..i] == list[..i];
      r := f(r, list[i]);
    }
    assert list[..|list|] == list;
  }

  /** `par_reduce`. The threads finish in any order; each has its own slot. */
  method ParReduce<T(0, !new)>(list: seq<T>, f: (T, T) -> T, base: T, numThreads: nat) returns (r: T)
    ensures r == if numThreads < 2 || list == [] then Fold(f, base, list) else Parallel(f, base, list, numThreads)
    ensures Associative(f) && BaseVanishes(f, base) ==> r == Fold(f, base, list)
    ensures Associative(f) && RightUnit(f, base) ==> r == Fold(f, base, list)
  {
    if numThreads < 2 || |list| == 0 {
      r := Helper(list, f, base);
      return;
    }
    ChunkCountInRange(|list|, numThreads);
    var one := (|list| + numThreads - 1) / numThreads;
    var two := (|list| + one - 1) / one;
    var data := new T[two];
    var running: set<nat> := {};
    for i := 0 to two
      invariant forall j: nat :: j in running <==> j < i
    {
      running := running + {i};
    }
    while running != {}
      invariant forall i: nat :: i in running ==> i < two
      invariant forall i: nat :: i < two && i !in running ==> data[i] == Fold(f, base, Chunk(list, one, i))
    {
      var i :| i in running;
      ChunksTile(|list|, one, i);
      var start := i * one;
      var end := (i + 1) * one;
      if end > |list| {
        end := |list|;
      }
      assert start < |list| && end == ChunkStart(|list|, one, i + 1);
      data[i] := Helper(list[start..end], f, base);
      running := running - {i};
    }
    r := base;
    for i := 0 to two
      invariant r == Joined(f, base, list, one, i)
    {
      r := f(r, data[i]);
    }
    if Associative(f) && RightUnit(f, base) { RightUnitVanishes(f, base); }
    if Associative(f) && BaseVanishes(f, base) { ParallelIsFold(f, base, list, numThreads); }
  }
}
