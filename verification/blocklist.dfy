/** The allocator's block list as a value: `malloc/alloc.c` seen from `head`.

    Blocks appear in list order, which is meant to be descending address order.
    `prev` pointers are never read and are left out. */
module BlockList {
  import opened Options

  /** sizeof(meta_data): four 8-byte fields and a padded char. */
  const META: nat := 40

  datatype Block = Block(addr: nat, size: nat, free: bool)

  datatype Heap = Heap(blocks: seq<Block>, total: int, brk: nat)

  function End(b: Block): nat {
    b.addr + META + b.size
  }

  /** The address just above block `k` of a tiled list. */
  function Above(brk: nat, bs: seq<Block>, k: nat): nat
    requires k <= |bs|
  {
    if k == 0 then brk else bs[k - 1].addr
  }

  /** The list is exactly the heap from `base` to the break, highest block first. */
  ghost predicate Tiled(base: nat, brk: nat, bs: seq<Block>) {
    && (forall i :: 0 <= i < |bs| ==> bs[i].size > 0)
    && (forall i {:trigger End(bs[i])} :: 0 <= i < |bs| ==> End(bs[i]) == Above(brk, bs, i))
    && Above(brk, bs, |bs|) == base
  }

  function FreeCount(bs: seq<Block>): nat {
    if bs == [] then 0 else FreeCount(bs[1..]) + if bs[0].free then 1 else 0
  }

  ghost predicate Valid(base: nat, h: Heap) {
    Tiled(base, h.brk, h.blocks) && FreeCount(h.blocks) <= h.total
  }

  // ---- find_fit ----

  datatype Choice = NoFit | Split(i: nat) | Exact(i: nat) | Merge2(i: nat) | Merge3(i: nat)

  predicate Fits(bs: seq<Block>, n: nat, i: nat)
    requires i < |bs|
  {
    bs[i].free && bs[i].size >= n
  }

  /** The two tests of `help_merge`, in its order; both need `first` to be free. */
  predicate PairFits(bs: seq<Block>, n: nat, i: nat)
    requires i < |bs|
  {
    i >= 1 && bs[i - 1].free && bs[i].free && n < bs[i - 1].size + bs[i].size + META
  }

  predicate TripleFits(bs: seq<Block>, n: nat, i: nat)
    requires i < |bs|
  {
    && i >= 2 && bs[i - 2].free && bs[i - 1].free && bs[i].free
    && bs[i - 1].size + bs[i - 2].size + bs[i].size + 2 * META >= n
  }

  predicate InRange(bs: seq<Block>, n: nat, c: Choice) {
    match c
    case NoFit => true
    case Split(i) => i < |bs| && bs[i].size > n + META
    case Exact(i) => i < |bs|
    case Merge2(i) => 1 <= i < |bs|
    case Merge3(i) => 2 <= i < |bs|
  }

  /** What `find_fit` does at position `i`; NoFit is moving on. */
  function Here(bs: seq<Block>, n: nat, i: nat): (c: Choice)
    requires i < |bs|
    ensures InRange(bs, n, c) && (c != NoFit ==> c.i == i)
  {
    if Fits(bs, n, i) then (if bs[i].size > n + META then Split(i) else Exact(i))
    else if PairFits(bs, n, i) then Merge2(i)
    else if TripleFits(bs, n, i) then Merge3(i)
    else NoFit
  }

  /** The scan of `find_fit` from position `i` on. */
  function Search(bs: seq<Block>, n: nat, i: nat): (c: Choice)
    requires i <= |bs|
    ensures InRange(bs, n, c)
    ensures c != NoFit ==> i <= c.i
    decreases |bs| - i
  {
    if i == |bs| then NoFit
    else if Here(bs, n, i) != NoFit then Here(bs, n, i)
    else Search(bs, n, i + 1)
  }

  function Find(h: Heap, n: nat): (c: Choice)
    ensures InRange(h.blocks, n, c)
  {
    if h.total == 0 || h.blocks == [] || n == 0 then NoFit else Search(h.blocks, n, 0)
  }

  function Splice(bs: seq<Block>, lo: nat, hi: nat, mid: seq<Block>): seq<Block>
    requires lo <= hi <= |bs|
  {
    bs[..lo] + mid + bs[hi..]
  }

  /** The blocks of `bs` that a choice replaces, and what it puts there. */
  function Window(c: Choice): (r: (nat, nat))
    requires c != NoFit
    requires c.Merge2? ==> c.i >= 1
    requires c.Merge3? ==> c.i >= 2
  {
    (if c.Merge3? then c.i - 2 else if c.Merge2? then c.i - 1 else c.i, c.i + 1)
  }

  function Replacement(bs: seq<Block>, n: nat, c: Choice): seq<Block>
    requires InRange(bs, n, c) && c != NoFit
  {
    match c
    case Split(i) => [Block(bs[i].addr + META + n, bs[i].size - n - META, true), bs[i].(size := n)]
    case Exact(i) => [bs[i]]
    case Merge2(i) => [bs[i].(size := bs[i].size + bs[i - 1].size + META)]
    case Merge3(i) => [bs[i].(size := bs[i].size + bs[i - 1].size + bs[i - 2].size + 2 * META)]
  }

  /** The list after `find_fit`; the chosen block is still marked free. */
  function Rearranged(bs: seq<Block>, n: nat, c: Choice): seq<Block>
    requires InRange(bs, n, c)
  {
    if c == NoFit then bs else Splice(bs, Window(c).0, Window(c).1, Replacement(bs, n, c))
  }

  function ChosenAt(c: Choice): nat
    requires c != NoFit
    requires c.Merge2? ==> c.i >= 1
    requires c.Merge3? ==> c.i >= 2
  {
    match c
    case Split(i) => i + 1
    case Exact(i) => i
    case Merge2(i) => i - 1
    case Merge3(i) => i - 2
  }

  function TotalChange(c: Choice): int {
    match c
    case NoFit => 0
    case Split(_) => 1
    case Exact(_) => -1
    case Merge2(_) => -2
    case Merge3(_) => -3
  }

  lemma {:induction false} SearchMeans(bs: seq<Block>, n: nat, i: nat)
    requires i <= |bs|
    ensures var c := Search(bs, n, i);
      && (c != NoFit ==> i <= c.i < |bs|)
      && (forall j :: i <= j < (if c == NoFit then |bs| else c.i) ==>
            !Fits(bs, n, j) && !PairFits(bs, n, j) && !TripleFits(bs, n, j))
      && (c.Split? || c.Exact? ==> Fits(bs, n, c.i))
      && (c.Exact? ==> bs[c.i].size <= n + META)
      && (c.Merge2? ==> !Fits(bs, n, c.i) && PairFits(bs, n, c.i))
      && (c.Merge3? ==> !Fits(bs, n, c.i) && !PairFits(bs, n, c.i) && TripleFits(bs, n, c.i))
    decreases |bs| - i
  {
    if i < |bs| && !Fits(bs, n, i) && !PairFits(bs, n, i) && !TripleFits(bs, n, i) {
      SearchMeans(bs, n, i + 1);
    }
  }

  // ---- malloc, free, realloc ----

  /** The test before `split_helper` in `malloc`. */
  predicate Oversized(size: nat, n: nat) {
    size - n > META && size - n > 2 * n
  }

  /** `malloc` marks the chosen block and perhaps calls `split_helper`, which links
      the remainder after the block: the wrong way round for this list. */
  function Take(bs: seq<Block>, n: nat, k: nat): seq<Block>
    requires k < |bs|
  {
    if Oversized(bs[k].size, n)
    then Splice(bs, k, k + 1, [Block(bs[k].addr, n, false), Block(bs[k].addr + META + n, bs[k].size - n - META, true)])
    else Splice(bs, k, k + 1, [bs[k].(free := false)])
  }

  lemma ChosenIsInside(bs: seq<Block>, n: nat, c: Choice)
    requires InRange(bs, n, c) && c != NoFit
    ensures ChosenAt(c) < |Rearranged(bs, n, c)|
  {
  }

  function Malloc(h: Heap, n: nat): Heap {
    if n == 0 then h
    else
      var c := Find(h, n);
      if c == NoFit then Heap([Block(h.brk, n, false)] + h.blocks, h.total, h.brk + META + n)
      else
        var bs := Rearranged(h.blocks, n, c);
        ChosenIsInside(h.blocks, n, c);
        var k := ChosenAt(c);
        Heap(Take(bs, n, k), h.total + TotalChange(c) - (if Oversized(bs[k].size, n) then 1 else 0), h.brk)
  }

  /** The block `malloc` hands out. */
  function Granted(h: Heap, n: nat): Block
    requires n > 0
  {
    var c := Find(h, n);
    if c == NoFit then Block(h.brk, n, false)
    else
      var bs := Rearranged(h.blocks, n, c);
      ChosenIsInside(h.blocks, n, c);
      var b := bs[ChosenAt(c)];
      Block(b.addr, if Oversized(b.size, n) then n else b.size, false)
  }

  /** `malloc(n)` reaches `split_helper`. */
  predicate Splits(h: Heap, n: nat) {
    var c := Find(h, n);
    && n > 0 && c != NoFit
    && (ChosenIsInside(h.blocks, n, c); Oversized(Rearranged(h.blocks, n, c)[ChosenAt(c)].size, n))
  }

  predicate IsLive(bs: seq<Block>, p: nat) {
    exists i :: 0 <= i < |bs| && bs[i].addr + META == p && !bs[i].free
  }

  function Freed(bs: seq<Block>, p: nat): seq<Block> {
    seq(|bs|, i requires 0 <= i < |bs| => if bs[i].addr + META == p then bs[i].(free := true) else bs[i])
  }

  /** `free` never coalesces: it compares a flag character with the number 1. */
  function Free(h: Heap, p: nat): Heap {
    if IsLive(h.blocks, p) then Heap(Freed(h.blocks, p), h.total + 1, h.brk) else h
  }

  function SizeAt(bs: seq<Block>, p: nat): nat {
    if bs == [] then 0 else if bs[0].addr + META == p then bs[0].size else SizeAt(bs[1..], p)
  }

  function Realloc(h: Heap, p: nat, n: nat): Heap {
    if p == 0 then Malloc(h, n)
    else if n == 0 then Free(h, p)
    else if n < SizeAt(h.blocks, p) then h
    else Free(Malloc(h, n), p)
  }

  // ---- tiling ----

  lemma {:induction false} TiledOrder(base: nat, brk: nat, bs: seq<Block>, i: nat, j: nat)
    requires Tiled(base, brk, bs) && i < j < |bs|
    ensures End(bs[j]) <= bs[i].addr
    decreases j
  {
    if i < j - 1 { TiledOrder(base, brk, bs, i, j - 1); }
  }

  lemma TiledBounds(base: nat, brk: nat, bs: seq<Block>, i: nat)
    requires Tiled(base, brk, bs) && i < |bs|
    ensures base <= bs[i].addr && End(bs[i]) <= brk
  {
    assert End(bs[0]) == brk;
    if i > 0 { TiledOrder(base, brk, bs, 0, i); }
    if i < |bs| - 1 { TiledOrder(base, brk, bs, i, |bs| - 1); }
  }

  predicate Separate(a: Block, b: Block) {
    End(a) <= b.addr || End(b) <= a.addr
  }

  predicate InHeap(base: nat, brk: nat, b: Block) {
    b.size > 0 && base <= b.addr && End(b) <= brk
  }

  /** Blocks lie in the heap and do not meet, in whatever order: what is left of the
      tiling after `split_helper`. */
  ghost predicate Scattered(base: nat, brk: nat, bs: seq<Block>) {
    && (forall i {:trigger InHeap(base, brk, bs[i])} :: 0 <= i < |bs| ==> InHeap(base, brk, bs[i]))
    && (forall i, j {:trigger Separate(bs[i], bs[j])} :: 0 <= i < j < |bs| ==> Separate(bs[i], bs[j]))
  }

  lemma TiledIsScattered(base: nat, brk: nat, bs: seq<Block>)
    requires Tiled(base, brk, bs)
    ensures Scattered(base, brk, bs)
  {
    forall i | 0 <= i < |bs| ensures InHeap(base, brk, bs[i]) { TiledBounds(base, brk, bs, i); }
    forall i, j | 0 <= i < j < |bs| ensures Separate(bs[i], bs[j]) { TiledOrder(base, brk, bs, i, j); }
  }

  /** Blocks may be exchanged for others that tile the same stretch. */
  lemma TiledSplice(base: nat, brk: nat, bs: seq<Block>, lo: nat, hi: nat, mid: seq<Block>)
    requires Tiled(base, brk, bs) && lo < hi <= |bs|
    requires mid != [] && Tiled(Above(brk, bs, hi), Above(brk, bs, lo), mid)
    ensures Tiled(base, brk, Splice(bs, lo, hi, mid))
  {
    var r := Splice(bs, lo, hi, mid);
    forall i | 0 <= i < |r| ensures r[i].size > 0 && End(r[i]) == Above(brk, r, i) {
      if i < lo {
        assert End(bs[i]) == Above(brk, bs, i);
      } else if i < lo + |mid| {
        assert End(mid[i - lo]) == Above(Above(brk, bs, lo), mid, i - lo);
      } else {
        var j := i - |mid| - lo + hi;
        assert End(bs[j]) == bs[j - 1].addr;
      }
    }
  }

  lemma RearrangedTiled(base: nat, brk: nat, bs: seq<Block>, n: nat, c: Choice)
    requires Tiled(base, brk, bs) && InRange(bs, n, c) && n > 0
    ensures Tiled(base, brk, Rearranged(bs, n, c))
  {
    if c != NoFit {
      var i := c.i;
      assert End(bs[i]) == Above(brk, bs, i);
      if c.Merge2? || c.Merge3? { assert End(bs[i - 1]) == Above(brk, bs, i - 1); }
      if c.Merge3? { assert End(bs[i - 2]) == Above(brk, bs, i - 2); }
      TiledSplice(base, brk, bs, Window(c).0, Window(c).1, Replacement(bs, n, c));
    }
  }

  lemma {:induction false} FreeCountConcat(a: seq<Block>, b: seq<Block>)
    ensures FreeCount(a + b) == FreeCount(a) + FreeCount(b)
  {
    if a == [] {
      assert a + b == b;
    } else {
      assert (a + b)[1..] == a[1..] + b;
      FreeCountConcat(a[1..], b);
    }
  }

  lemma FreeCountSplice(bs: seq<Block>, lo: nat, hi: nat, mid: seq<Block>)
    requires lo <= hi <= |bs|
    ensures FreeCount(Splice(bs, lo, hi, mid)) == FreeCount(bs) - FreeCount(bs[lo..hi]) + FreeCount(mid)
  {
    assert bs == bs[..lo] + bs[lo..hi] + bs[hi..];
    FreeCountConcat(bs[..lo], bs[lo..hi]);
    FreeCountConcat(bs[..lo] + bs[lo..hi], bs[hi..]);
    FreeCountConcat(bs[..lo], mid);
    FreeCountConcat(bs[..lo] + mid, bs[hi..]);
  }

  lemma {:induction false} FreeCountFew(bs: seq<Block>)
    requires 0 < |bs| <= 3
    ensures FreeCount(bs) == (if bs[0].free then 1 else 0) + (if |bs| > 1 && bs[1].free then 1 else 0)
                             + (if |bs| > 2 && bs[2].free then 1 else 0)
  {
    if |bs| > 1 { FreeCountFew(bs[1..]); }
  }

  lemma RearrangedCount(bs: seq<Block>, n: nat, c: Choice)
    requires c != NoFit && InRange(bs, n, c)
    requires forall j :: Window(c).0 <= j < Window(c).1 ==> bs[j].free
    ensures FreeCount(Rearranged(bs, n, c)) == FreeCount(bs) + TotalChange(c) + if c.Split? then 0 else 1
  {
    var before := bs[Window(c).0..Window(c).1];
    FreeCountSplice(bs, Window(c).0, Window(c).1, Replacement(bs, n, c));
    FreeCountFew(before);
    FreeCountFew(Replacement(bs, n, c));
  }

  /** `find_fit`'s block is free and large enough. */
  lemma FoundFits(base: nat, h: Heap, n: nat)
    requires Valid(base, h) && Find(h, n) != NoFit
    ensures var c := Find(h, n);
      && ChosenAt(c) < |Rearranged(h.blocks, n, c)|
      && Rearranged(h.blocks, n, c)[ChosenAt(c)].free
      && Rearranged(h.blocks, n, c)[ChosenAt(c)].size >= n > 0
      && Tiled(base, h.brk, Rearranged(h.blocks, n, c))
      && FreeCount(Rearranged(h.blocks, n, c)) <= h.total + TotalChange(c) + 1
  {
    SearchMeans(h.blocks, n, 0);
    RearrangedTiled(base, h.brk, h.blocks, n, Find(h, n));
    RearrangedCount(h.blocks, n, Find(h, n));
  }

  // ---- split_helper ----

  /** Requests for which no heap the allocator can build makes `malloc` call
      `split_helper`. */
  predicate SafeRequest(n: nat) {
    n < 3 || n > META - 3
  }

  lemma SafeRequestNeverSplits(base: nat, h: Heap, n: nat)
    requires Valid(base, h) && SafeRequest(n)
    ensures !Splits(h, n)
  {
    SearchMeans(h.blocks, n, 0);
    var c := Find(h, n);
    if c.Merge3? {
      assert !PairFits(h.blocks, n, c.i - 1);
      assert !Fits(h.blocks, n, c.i - 2);
    } else if c.Merge2? {
      assert !Fits(h.blocks, n, c.i - 1);
    }
  }

  lemma GrowKeepsValid(base: nat, h: Heap, n: nat)
    requires Valid(base, h) && n > 0
    ensures Valid(base, Heap([Block(h.brk, n, false)] + h.blocks, h.total, h.brk + META + n))
  {
    var bs := [Block(h.brk, n, false)] + h.blocks;
    assert bs[1..] == h.blocks;
    forall i | 0 < i < |bs| ensures End(bs[i]) == Above(h.brk + META + n, bs, i) {
      assert End(h.blocks[i - 1]) == Above(h.brk, h.blocks, i - 1);
    }
  }

  lemma TakeTilesIff(base: nat, brk: nat, bs: seq<Block>, n: nat, k: nat)
    requires Tiled(base, brk, bs) && k < |bs| && bs[k].free && n > 0
    ensures Tiled(base, brk, Take(bs, n, k)) <==> !Oversized(bs[k].size, n)
    ensures !Oversized(bs[k].size, n) ==> FreeCount(Take(bs, n, k)) == FreeCount(bs) - 1
  {
    var r := Take(bs, n, k);
    if Oversized(bs[k].size, n) {
      assert r[k] == Block(bs[k].addr, n, false);
      assert End(r[k + 1]) > Above(brk, r, k + 1);
    } else {
      assert End(bs[k]) == Above(brk, bs, k);
      TiledSplice(base, brk, bs, k, k + 1, [bs[k].(free := false)]);
      FreeCountSplice(bs, k, k + 1, [bs[k].(free := false)]);
      FreeCountFew(bs[k..k + 1]);
      FreeCountFew([bs[k].(free := false)]);
    }
  }

  /** Calling `split_helper` and losing the tiling are the same thing. */
  lemma MallocKeepsValidIff(base: nat, h: Heap, n: nat)
    requires Valid(base, h)
    ensures Valid(base, Malloc(h, n)) <==> !Splits(h, n)
  {
    if n > 0 {
      if Find(h, n) == NoFit {
        GrowKeepsValid(base, h, n);
      } else {
        FoundFits(base, h, n);
        TakeTilesIff(base, h.brk, Rearranged(h.blocks, n, Find(h, n)), n, ChosenAt(Find(h, n)));
      }
    }
  }

  /** Even where `split_helper` is called, blocks do not meet. */
  lemma TakeScatters(base: nat, brk: nat, bs: seq<Block>, n: nat, k: nat)
    requires Tiled(base, brk, bs) && k < |bs| && bs[k].size >= n > 0
    ensures Scattered(base, brk, Take(bs, n, k))
  {
    TiledIsScattered(base, brk, bs);
    var r := Take(bs, n, k);
    forall i | 0 <= i < |r| ensures InHeap(base, brk, r[i]) {
      TakenComesFrom(bs, n, k, i);
      assert InHeap(base, brk, bs[Origin(bs, n, k, i)]);
    }
    forall i, j | 0 <= i < j < |r| ensures Separate(r[i], r[j]) {
      TakenComesFrom(bs, n, k, i);
      TakenComesFrom(bs, n, k, j);
      var p, q := Origin(bs, n, k, i), Origin(bs, n, k, j);
      assert InHeap(base, brk, bs[p]) && (p < q ==> Separate(bs[p], bs[q]));
    }
  }

  /** The block that block `i` of the new list comes from. */
  function Origin(bs: seq<Block>, n: nat, k: nat, i: nat): nat
    requires k < |bs|
  {
    if i <= k then i else if Oversized(bs[k].size, n) then i - 1 else i
  }

  lemma TakenComesFrom(bs: seq<Block>, n: nat, k: nat, i: nat)
    requires k < |bs| && bs[k].size >= n > 0 && i < |Take(bs, n, k)|
    ensures Origin(bs, n, k, i) < |bs|
    ensures var r, b := Take(bs, n, k)[i], bs[Origin(bs, n, k, i)];
      b.addr <= r.addr && End(r) <= End(b) && (b.size > 0 ==> r.size > 0)
    ensures Origin(bs, n, k, i) != k ==> Take(bs, n, k)[i] == bs[Origin(bs, n, k, i)]
    ensures i == k + 1 && Origin(bs, n, k, i) == k ==> End(Take(bs, n, k)[k]) <= Take(bs, n, k)[i].addr
  {
  }

  lemma MallocScatters(base: nat, h: Heap, n: nat)
    requires Valid(base, h)
    ensures Scattered(base, Malloc(h, n).brk, Malloc(h, n).blocks)
  {
    if n == 0 {
      TiledIsScattered(base, h.brk, h.blocks);
    } else if Find(h, n) == NoFit {
      GrowKeepsValid(base, h, n);
      TiledIsScattered(base, Malloc(h, n).brk, Malloc(h, n).blocks);
    } else {
      FoundFits(base, h, n);
      TakeScatters(base, h.brk, Rearranged(h.blocks, n, Find(h, n)), n, ChosenAt(Find(h, n)));
    }
  }

  /** `free` neither loses nor restores the tiling. */
  lemma FreeKeepsValid(base: nat, h: Heap, p: nat)
    requires Scattered(base, h.brk, h.blocks)
    ensures Valid(base, Free(h, p)) <==> Valid(base, h)
    ensures Scattered(base, h.brk, Free(h, p).blocks)
  {
    if IsLive(h.blocks, p) {
      var k :| 0 <= k < |h.blocks| && h.blocks[k].addr + META == p && !h.blocks[k].free;
      FreedIsSplice(base, h, k);
      FreedTilesIff(base, h.brk, h.blocks, p);
      FreeCountSplice(h.blocks, k, k + 1, [h.blocks[k].(free := true)]);
      FreeCountFew(h.blocks[k..k + 1]);
      FreeCountFew([h.blocks[k].(free := true)]);
      SameShapeScatters(base, h.brk, h.blocks, Freed(h.blocks, p));
    }
  }

  lemma SameShapeScatters(base: nat, brk: nat, a: seq<Block>, b: seq<Block>)
    requires Scattered(base, brk, a) && |a| == |b|
    requires forall i :: 0 <= i < |a| ==> a[i].addr == b[i].addr && a[i].size == b[i].size
    ensures Scattered(base, brk, b)
  {
    forall i | 0 <= i < |b| ensures InHeap(base, brk, b[i]) { assert InHeap(base, brk, a[i]); }
    forall i, j | 0 <= i < j < |b| ensures Separate(b[i], b[j]) { assert Separate(a[i], a[j]); }
  }

  lemma FreedTilesIff(base: nat, brk: nat, bs: seq<Block>, p: nat)
    ensures Tiled(base, brk, Freed(bs, p)) <==> Tiled(base, brk, bs)
  {
    if Tiled(base, brk, bs) { SameShapeTiles(base, brk, bs, Freed(bs, p)); }
    if Tiled(base, brk, Freed(bs, p)) { SameShapeTiles(base, brk, Freed(bs, p), bs); }
  }

  lemma SameShapeTiles(base: nat, brk: nat, a: seq<Block>, b: seq<Block>)
    requires Tiled(base, brk, a) && |a| == |b|
    requires forall i :: 0 <= i < |a| ==> a[i].addr == b[i].addr && a[i].size == b[i].size
    ensures Tiled(base, brk, b)
  {
    forall i | 0 <= i < |b| ensures End(b[i]) == Above(brk, b, i) { assert End(a[i]) == Above(brk, a, i); }
  }

  /** Addresses are distinct, so `free` touches one block. */
  lemma FreedIsSplice(base: nat, h: Heap, k: nat)
    requires Scattered(base, h.brk, h.blocks) && k < |h.blocks|
    ensures Freed(h.blocks, h.blocks[k].addr + META) == Splice(h.blocks, k, k + 1, [h.blocks[k].(free := true)])
  {
    var bs := h.blocks;
    forall i | 0 <= i < |bs| && i != k ensures bs[i].addr != bs[k].addr {
      if i < k { assert Separate(bs[i], bs[k]); } else { assert Separate(bs[k], bs[i]); }
    }
  }

  // ---- what callers rely on ----

  /** Block `i` is free and large enough, or with the free ones before it in the list:
      the three tests of the search, in bytes. */
  ghost predicate Serves(bs: seq<Block>, n: nat, i: nat)
    requires i < |bs|
  {
    && bs[i].free
    && (|| bs[i].size >= n
        || (i >= 1 && bs[i - 1].free && bs[i].size + bs[i - 1].size + META > n)
        || (i >= 2 && bs[i - 1].free && bs[i - 2].free
            && bs[i].size + bs[i - 1].size + bs[i - 2].size + 2 * META >= n))
  }

  /** Handing out a block reuses the heap whenever anything fits: the break moves
      only if no free block, no free pair and no free triple passes its test. */
  lemma BreakMovesIff(base: nat, h: Heap, n: nat)
    requires Valid(base, h) && n > 0
    ensures Malloc(h, n).brk != h.brk <==> forall i :: 0 <= i < |h.blocks| ==> !Serves(h.blocks, n, i)
    ensures Malloc(h, n).brk != h.brk ==>
      && Malloc(h, n).brk == h.brk + 40 + n && Granted(h, n) == Block(h.brk, n, false)
      && Malloc(h, n).blocks == [Block(h.brk, n, false)] + h.blocks
  {
    SearchMeans(h.blocks, n, 0);
    if h.total == 0 {
      forall i | 0 <= i < |h.blocks| ensures !h.blocks[i].free {
        FreeCountSplice(h.blocks, i, i + 1, []);
        FreeCountFew(h.blocks[i..i + 1]);
      }
    } else if Find(h, n) != NoFit {
      assert Serves(h.blocks, n, Find(h, n).i);
    } else {
      forall i | 0 <= i < |h.blocks| ensures !Serves(h.blocks, n, i) {
        assert !Fits(h.blocks, n, i) && !PairFits(h.blocks, n, i) && !TripleFits(h.blocks, n, i);
      }
    }
  }

  /** The first block that serves is where the block handed out starts; no more is given
      than 40 bytes, or twice the request, beyond it. */
  lemma FirstFit(base: nat, h: Heap, n: nat, i: nat)
    requires Valid(base, h) && n > 0 && i < |h.blocks| && Serves(h.blocks, n, i)
    requires forall j :: 0 <= j < i ==> !Serves(h.blocks, n, j)
    ensures Granted(h, n).addr == h.blocks[i].addr
    ensures n <= Granted(h, n).size && (Granted(h, n).size <= n + 40 || Granted(h, n).size <= 3 * n)
  {
    BreakMovesIff(base, h, n);
    FoundFirst(h, n, i);
    FoundFits(base, h, n);
    GrantedFrom(h, n, Find(h, n));
  }

  lemma FoundFirst(h: Heap, n: nat, i: nat)
    requires Find(h, n) != NoFit && i < |h.blocks| && Serves(h.blocks, n, i)
    requires forall j :: 0 <= j < i ==> !Serves(h.blocks, n, j)
    ensures Find(h, n).i == i
  {
    SearchMeans(h.blocks, n, 0);
    assert Serves(h.blocks, n, Find(h, n).i);
    forall j | 0 <= j < Find(h, n).i ensures !Serves(h.blocks, n, j) {
      assert !Fits(h.blocks, n, j) && !PairFits(h.blocks, n, j) && !TripleFits(h.blocks, n, j);
    }
  }

  lemma GrantedFrom(h: Heap, n: nat, c: Choice)
    requires n > 0 && c == Find(h, n) != NoFit
    requires ChosenAt(c) < |Rearranged(h.blocks, n, c)| && Rearranged(h.blocks, n, c)[ChosenAt(c)].size >= n
    ensures Granted(h, n).addr == h.blocks[c.i].addr
    ensures n <= Granted(h, n).size && (Granted(h, n).size <= n + 40 || Granted(h, n).size <= 3 * n)
  {
  }

  lemma TakeCount(bs: seq<Block>, n: nat, k: nat)
    requires k < |bs| && bs[k].free && bs[k].size >= n
    ensures FreeCount(Take(bs, n, k)) == FreeCount(bs) - if Oversized(bs[k].size, n) then 0 else 1
  {
    FreeCountFew(bs[k..k + 1]);
    if Oversized(bs[k].size, n) {
      var mid := [Block(bs[k].addr, n, false), Block(bs[k].addr + META + n, bs[k].size - n - META, true)];
      FreeCountSplice(bs, k, k + 1, mid);
      FreeCountFew(mid);
    } else {
      FreeCountSplice(bs, k, k + 1, [bs[k].(free := false)]);
      FreeCountFew([bs[k].(free := false)]);
    }
  }

  /** What a choice does to the number of blocks, and when it ends in `split_helper`. */
  lemma FoundShape(base: nat, h: Heap, n: nat)
    requires Valid(base, h) && Find(h, n) != NoFit
    ensures var c := Find(h, n);
      && n > 0 && ChosenAt(c) < |Rearranged(h.blocks, n, c)|
      && (|Rearranged(h.blocks, n, c)| > |h.blocks| <==> c.Split?)
      && (Splits(h, n) ==> c.Merge2? || c.Merge3?)
      && (|Malloc(h, n).blocks| > |h.blocks| && !Splits(h, n) <==> c.Split?)
      && Malloc(h, n).brk == h.brk
  {
    SearchMeans(h.blocks, n, 0);
  }

  lemma WindowIsFree(h: Heap, n: nat)
    requires Find(h, n) != NoFit
    ensures var c := Find(h, n); forall j :: Window(c).0 <= j < Window(c).1 ==> h.blocks[j].free
  {
    SearchMeans(h.blocks, n, 0);
  }

  lemma FoundDrift(base: nat, h: Heap, n: nat)
    requires Valid(base, h) && Find(h, n) != NoFit
    ensures Malloc(h, n).total - FreeCount(Malloc(h, n).blocks) ==
      h.total - FreeCount(h.blocks) + if Splits(h, n) then -2 else if Find(h, n).Split? then 1 else 0
  {
    var c := Find(h, n);
    FoundShape(base, h, n);
    FoundIsTaken(base, h, n);
    WindowIsFree(h, n);
    RearrangedCount(h.blocks, n, c);
    TakeCount(Rearranged(h.blocks, n, c), n, ChosenAt(c));
  }

  /** `total_free_blocks` runs ahead of the free blocks by one for every block that
      `find_fit` splits, and falls behind by two with every call of `split_helper`. */
  lemma CounterDrift(base: nat, h: Heap, n: nat)
    requires Valid(base, h) && n > 0
    ensures Malloc(h, n).total - FreeCount(Malloc(h, n).blocks) ==
      h.total - FreeCount(h.blocks)
      + if Splits(h, n) then -2
        else if Malloc(h, n).brk == h.brk && |Malloc(h, n).blocks| > |h.blocks| then 1 else 0
  {
    if Find(h, n) == NoFit {
      assert Malloc(h, n).blocks[1..] == h.blocks;
    } else {
      FoundShape(base, h, n);
      FoundDrift(base, h, n);
    }
  }

  ghost function Live(bs: seq<Block>): set<Block> {
    set b | b in bs && !b.free
  }

  /** `malloc` adds one block to the live ones, at an address no live block shares,
      and neither moves, resizes nor drops any of them. */
  lemma MallocAddsOneLiveBlock(base: nat, h: Heap, n: nat)
    requires Valid(base, h) && n > 0
    ensures Live(Malloc(h, n).blocks) == Live(h.blocks) + {Granted(h, n)}
    ensures Granted(h, n).size >= n
    ensures forall b :: b in Live(h.blocks) ==> End(b) <= Granted(h, n).addr || End(Granted(h, n)) <= b.addr
  {
    if Find(h, n) == NoFit {
      GrowAddsLive(base, h, n);
    } else {
      FoundFits(base, h, n);
      FoundKeepsLive(base, h, n);
      TakeAddsLive(base, h.brk, Rearranged(h.blocks, n, Find(h, n)), n, ChosenAt(Find(h, n)));
    }
  }

  /** The blocks after `malloc(n)`: one more is live, large enough and apart from the rest. */
  ghost predicate Grants(h: Heap, n: nat, after: seq<Block>)
    requires n > 0
  {
    && Live(after) == Live(h.blocks) + {Granted(h, n)} && Granted(h, n).size >= n
    && forall b :: b in Live(h.blocks) ==> End(b) <= Granted(h, n).addr || End(Granted(h, n)) <= b.addr
  }

  lemma MallocGrants(base: nat, h: Heap, n: nat)
    requires Valid(base, h) && n > 0
    ensures Grants(h, n, Malloc(h, n).blocks)
  {
    MallocAddsOneLiveBlock(base, h, n);
  }

  /** `find_fit` only rearranges free blocks. */
  lemma FoundKeepsLive(base: nat, h: Heap, n: nat)
    requires Valid(base, h) && Find(h, n) != NoFit
    ensures Live(Rearranged(h.blocks, n, Find(h, n))) == Live(h.blocks)
  {
    var c := Find(h, n);
    SearchMeans(h.blocks, n, 0);
    LiveAfterSplice(h.blocks, Window(c).0, Window(c).1, Replacement(h.blocks, n, c));
    assert Live(Replacement(h.blocks, n, c)) == {} by { ReplacementIsFree(h.blocks, n, c); }
  }

  /** What `malloc` makes of a block that was found. */
  lemma FoundIsTaken(base: nat, h: Heap, n: nat)
    requires Valid(base, h) && Find(h, n) != NoFit
    ensures var bs, k := Rearranged(h.blocks, n, Find(h, n)), ChosenAt(Find(h, n));
      && n > 0 && k < |bs| && bs[k].free && bs[k].size >= n && Tiled(base, h.brk, bs) && Live(bs) == Live(h.blocks)
      && Malloc(h, n).blocks == Take(bs, n, k) && Malloc(h, n).brk == h.brk
      && Malloc(h, n).total == h.total + TotalChange(Find(h, n)) - (if Oversized(bs[k].size, n) then 1 else 0)
      && Granted(h, n).addr == bs[k].addr
  {
    FoundFits(base, h, n);
    FoundKeepsLive(base, h, n);
  }

  lemma ReplacementIsFree(bs: seq<Block>, n: nat, c: Choice)
    requires InRange(bs, n, c) && c != NoFit && bs[c.i].free
    ensures forall b :: b in Replacement(bs, n, c) ==> b.free
  {
  }

  lemma GrowAddsLive(base: nat, h: Heap, n: nat)
    requires Valid(base, h)
    ensures Live([Block(h.brk, n, false)] + h.blocks) == Live(h.blocks) + {Block(h.brk, n, false)}
    ensures forall b :: b in Live(h.blocks) ==> End(b) <= h.brk
  {
    forall b ensures b in [Block(h.brk, n, false)] + h.blocks <==> b in h.blocks || b == Block(h.brk, n, false) {}
    forall b | b in Live(h.blocks) ensures End(b) <= h.brk {
      var i :| 0 <= i < |h.blocks| && h.blocks[i] == b;
      TiledBounds(base, h.brk, h.blocks, i);
    }
  }

  lemma TakeAddsLive(base: nat, brk: nat, bs: seq<Block>, n: nat, k: nat)
    requires Tiled(base, brk, bs) && k < |bs| && bs[k].free && bs[k].size >= n > 0
    ensures var g := Block(bs[k].addr, if Oversized(bs[k].size, n) then n else bs[k].size, false);
      && Live(Take(bs, n, k)) == Live(bs) + {g}
      && forall b :: b in Live(bs) ==> End(b) <= g.addr || End(g) <= b.addr
  {
    var g := Block(bs[k].addr, if Oversized(bs[k].size, n) then n else bs[k].size, false);
    var mid := if Oversized(bs[k].size, n)
      then [g, Block(bs[k].addr + META + n, bs[k].size - n - META, true)]
      else [g];
    assert Take(bs, n, k) == Splice(bs, k, k + 1, mid);
    assert Live(mid) == {g};
    LiveAfterSplice(bs, k, k + 1, mid);
    forall b | b in Live(bs) ensures End(b) <= g.addr || End(g) <= b.addr {
      var i :| 0 <= i < |bs| && bs[i] == b;
      if i < k { TiledOrder(base, brk, bs, i, k); } else { TiledOrder(base, brk, bs, k, i); }
    }
  }

  /** `free` takes just its own block out of the live ones, also after `split_helper`. */
  lemma FreeRemovesOneLiveBlock(base: nat, h: Heap, b: Block)
    requires Scattered(base, h.brk, h.blocks) && b in Live(h.blocks)
    ensures var r := Free(h, b.addr + META);
      Live(r.blocks) == Live(h.blocks) - {b} && r.total == h.total + 1 && r.brk == h.brk
    ensures SizeAt(h.blocks, b.addr + META) == b.size
  {
    var k :| 0 <= k < |h.blocks| && h.blocks[k] == b;
    assert IsLive(h.blocks, b.addr + META);
    FreedIsSplice(base, h, k);
    var r := Free(h, b.addr + META).blocks;
    forall i | 0 <= i < |h.blocks| && i != k ensures h.blocks[i].addr != b.addr && r[i] == h.blocks[i] {
      if i < k { assert Separate(h.blocks[i], h.blocks[k]); } else { assert Separate(h.blocks[k], h.blocks[i]); }
    }
    forall x ensures x in Live(r) <==> x in Live(h.blocks) && x != b {
      if x in Live(r) {
        var i :| 0 <= i < |r| && r[i] == x;
        assert h.blocks[i] == x;
      }
    }
    SizeAtIs(h.blocks, k);
  }

  /** What `realloc` of a live block leaves live: all but it for size 0, the same blocks
      if it shrinks, and otherwise the newly granted one in its place. */
  lemma ReallocReplaces(base: nat, h: Heap, mine: Block, n: nat)
    requires Valid(base, h) && mine in Live(h.blocks)
    ensures var r := Realloc(h, mine.addr + META, n);
      && (n == 0 ==> Live(r.blocks) == Live(h.blocks) - {mine} && r.total == h.total + 1 && r.brk == h.brk)
      && (0 < n < mine.size ==> r == h)
      && (n >= mine.size ==> Live(r.blocks) == Live(h.blocks) + {Granted(h, n)} - {mine} && Granted(h, n) != mine)
      && (mine.addr + META != 0 && mine.size > 0)
      && SizeAt(h.blocks, mine.addr + META) == mine.size
  {
    TiledIsScattered(base, h.brk, h.blocks);
    FreeRemovesOneLiveBlock(base, h, mine);
    var k :| 0 <= k < |h.blocks| && h.blocks[k] == mine;
    assert InHeap(base, h.brk, h.blocks[k]);
    if n >= mine.size {
      MallocAddsOneLiveBlock(base, h, n);
      MallocScatters(base, h, n);
      FreeRemovesOneLiveBlock(base, Malloc(h, n), mine);
    }
  }

  /** The heap after `realloc` of the live block `mine`. */
  ghost predicate Reallocates(h: Heap, mine: Block, n: nat, after: Heap) {
    && (n == 0 ==> Live(after.blocks) == Live(h.blocks) - {mine} && after.total == h.total + 1)
    && (0 < n < mine.size ==> after == h)
    && (n > 0 && n >= mine.size ==> Live(after.blocks) == Live(h.blocks) + {Granted(h, n)} - {mine})
  }

  /** The heap after `free(p)`, by whether a live block starts there. */
  ghost predicate Releases(h: Heap, p: nat, after: Heap) {
    && (!IsLive(h.blocks, p) ==> after == h)
    && (forall b :: b in Live(h.blocks) && p == b.addr + META ==>
          Live(after.blocks) == Live(h.blocks) - {b} && after.total == h.total + 1)
  }

  lemma FreedLive(base: nat, h: Heap, p: nat)
    requires Scattered(base, h.brk, h.blocks)
    ensures Releases(h, p, Free(h, p))
  {
    forall b | b in Live(h.blocks) && p == b.addr + META
      ensures Live(Free(h, p).blocks) == Live(h.blocks) - {b} && Free(h, p).total == h.total + 1 {
      FreeRemovesOneLiveBlock(base, h, b);
    }
  }

  lemma {:induction false} SizeAtIs(bs: seq<Block>, k: nat)
    requires k < |bs| && forall i :: 0 <= i < |bs| && i != k ==> bs[i].addr != bs[k].addr
    ensures SizeAt(bs, bs[k].addr + META) == bs[k].size
  {
    if k > 0 {
      assert bs[0].addr != bs[k].addr;
      SizeAtIs(bs[1..], k - 1);
    }
  }

  lemma LiveAfterSplice(bs: seq<Block>, lo: nat, hi: nat, mid: seq<Block>)
    requires lo <= hi <= |bs|
    requires forall i :: lo <= i < hi ==> bs[i].free
    ensures Live(Splice(bs, lo, hi, mid)) == Live(bs) + Live(mid)
  {
    var r := Splice(bs, lo, hi, mid);
    assert bs == bs[..lo] + bs[lo..hi] + bs[hi..];
    forall b ensures b in r <==> b in bs[..lo] || b in mid || b in bs[hi..] {}
    forall b ensures b in bs <==> b in bs[..lo] || b in bs[lo..hi] || b in bs[hi..] {}
    forall b | b in bs[lo..hi] ensures b.free {}
  }

  lemma LivePayloadsDisjoint(base: nat, h: Heap, a: Block, b: Block)
    requires Valid(base, h) && a in h.blocks && b in h.blocks && a != b
    ensures End(a) <= b.addr || End(b) <= a.addr
    ensures base <= a.addr && End(a) <= h.brk
  {
    var i :| 0 <= i < |h.blocks| && h.blocks[i] == a;
    var j :| 0 <= j < |h.blocks| && h.blocks[j] == b;
    TiledBounds(base, h.brk, h.blocks, i);
    if i < j { TiledOrder(base, h.brk, h.blocks, i, j); } else { TiledOrder(base, h.brk, h.blocks, j, i); }
  }

  // ---- sequences of calls ----

  datatype Call = CallMalloc(n: nat) | CallCalloc(num: nat, size: nat) | CallRealloc(p: nat, n: nat) | CallFree(p: nat)

  /** `free` and `realloc` take null or a pointer the allocator gave out. */
  predicate Allowed(h: Heap, c: Call) {
    match c
    case CallFree(p) => p == 0 || IsLive(h.blocks, p)
    case CallRealloc(p, _) => p == 0 || IsLive(h.blocks, p)
    case _ => true
  }

  function Step(h: Heap, c: Call): Heap {
    match c
    case CallMalloc(n) => Malloc(h, n)
    case CallCalloc(num, size) => Malloc(h, num * size)
    case CallRealloc(p, n) => Realloc(h, p, n)
    case CallFree(p) => Free(h, p)
  }

  function RequestOf(c: Call): nat {
    match c
    case CallMalloc(n) => n
    case CallCalloc(num, size) => num * size
    case CallRealloc(_, n) => n
    case CallFree(_) => 0
  }

  function Run(h: Heap, cs: seq<Call>): Option<Heap>
    decreases |cs|
  {
    if cs == [] then Some(h)
    else if Allowed(h, cs[0]) then Run(Step(h, cs[0]), cs[1..])
    else None
  }

  /** The call reaches `split_helper`. */
  predicate CallSplits(h: Heap, c: Call) {
    match c
    case CallMalloc(n) => Splits(h, n)
    case CallCalloc(num, size) => Splits(h, num * size)
    case CallRealloc(p, n) => (p == 0 || (n != 0 && n >= SizeAt(h.blocks, p))) && Splits(h, n)
    case CallFree(_) => false
  }

  /** Each call keeps the tiling and the counter exactly when it does not reach
      `split_helper`. */
  lemma StepKeepsValidIff(base: nat, h: Heap, c: Call)
    requires Valid(base, h) && Allowed(h, c)
    ensures Valid(base, Step(h, c)) <==> !CallSplits(h, c)
  {
    MallocKeepsValidIff(base, h, RequestOf(c));
    TiledIsScattered(base, h.brk, h.blocks);
    match c
    case CallMalloc(_) =>
    case CallCalloc(_, _) =>
    case CallRealloc(p, n) =>
      MallocScatters(base, h, n);
      FreeKeepsValid(base, Malloc(h, n), p);
      FreeKeepsValid(base, h, p);
    case CallFree(p) => FreeKeepsValid(base, h, p);
  }

  lemma SafeCallNeverSplits(base: nat, h: Heap, c: Call)
    requires Valid(base, h) && SafeRequest(RequestOf(c))
    ensures !CallSplits(h, c)
  {
    SafeRequestNeverSplits(base, h, RequestOf(c));
  }

  /** Through any sequence of calls with safe request sizes the list tiles the
      heap exactly and the free counter never falls behind. */
  lemma {:induction false} RunKeepsValid(base: nat, h: Heap, cs: seq<Call>)
    requires Valid(base, h) && Run(h, cs).Some?
    requires forall c :: c in cs ==> SafeRequest(RequestOf(c))
    ensures Valid(base, Run(h, cs).value)
    decreases |cs|
  {
    if cs != [] {
      SafeCallNeverSplits(base, h, cs[0]);
      StepKeepsValidIff(base, h, cs[0]);
      RunKeepsValid(base, Step(h, cs[0]), cs[1..]);
    }
  }

  /** The calls that drive a fresh heap into `split_helper` for the request `n`. */
  function Breaking(base: nat, n: nat): seq<Call>
    requires n > 0
  {
    [CallMalloc(n - 1), CallMalloc(n - 1), CallMalloc(n - 1),
     CallFree(base + META), CallFree(base + META + n - 1 + META), CallFree(base + 2 * (META + n - 1) + META)]
  }

  /** Three blocks in a row, the first `freed` of them free. */
  function ThreeBlocks(base: nat, m: nat, freed: nat): Heap {
    Heap([Block(base + 2 * (META + m), m, freed > 2), Block(base + META + m, m, freed > 1), Block(base, m, freed > 0)],
         freed, base + 3 * (META + m))
  }

  lemma RunThree(cs: seq<Call>, h0: Heap, h1: Heap, h2: Heap, h3: Heap)
    requires |cs| >= 3 && Allowed(h0, cs[0]) && Allowed(h1, cs[1]) && Allowed(h2, cs[2])
    requires Step(h0, cs[0]) == h1 && Step(h1, cs[1]) == h2 && Step(h2, cs[2]) == h3
    ensures Run(h0, cs) == Run(h3, cs[3..])
  {
    assert cs[2..][1..] == cs[3..] && cs[1..][1..] == cs[2..];
    assert Run(h2, cs[2..]) == Run(h3, cs[3..]);
    assert Run(h1, cs[1..]) == Run(h3, cs[3..]);
  }

  lemma FillThree(base: nat, m: nat)
    requires m > 0
    ensures Malloc(Malloc(Malloc(Heap([], 0, base), m), m), m) == ThreeBlocks(base, m, 0)
  {
    assert Malloc(Heap([], 0, base), m) == Heap([Block(base, m, false)], 0, base + META + m);
  }

  lemma FreeOneOfThree(base: nat, m: nat, freed: nat, p: nat)
    requires freed < 3 && p == base + freed * (META + m) + META
    ensures IsLive(ThreeBlocks(base, m, freed).blocks, p)
    ensures Free(ThreeBlocks(base, m, freed), p) == ThreeBlocks(base, m, freed + 1)
  {
    var h := ThreeBlocks(base, m, freed);
    assert h.blocks[2 - freed].addr + META == p;
  }

  lemma BreakingRun(base: nat, n: nat)
    requires !SafeRequest(n)
    ensures Run(Heap([], 0, base), Breaking(base, n)) == Some(ThreeBlocks(base, n - 1, 3))
    ensures Valid(base, ThreeBlocks(base, n - 1, 3)) && Splits(ThreeBlocks(base, n - 1, 3), n)
  {
    var cs, m := Breaking(base, n), n - 1;
    var h0 := Heap([], 0, base);
    var h := ThreeBlocks(base, m, 3);
    FillThree(base, m);
    RunThree(cs, h0, Malloc(h0, m), Malloc(Malloc(h0, m), m), ThreeBlocks(base, m, 0));
    FreeOneOfThree(base, m, 0, cs[3].p);
    FreeOneOfThree(base, m, 1, cs[4].p);
    FreeOneOfThree(base, m, 2, cs[5].p);
    RunThree(cs[3..], ThreeBlocks(base, m, 0), ThreeBlocks(base, m, 1), ThreeBlocks(base, m, 2), h);
    FreeCountFew(h.blocks);
    assert Search(h.blocks, n, 0) == Search(h.blocks, n, 1) == Merge2(1);
  }

  /** A history of `cs` leads from a fresh heap to a sound one, on which `malloc` calls
      `split_helper` and the tiling is lost. */
  ghost predicate Breaks(base: nat, n: nat, cs: seq<Call>) {
    var r := Run(Heap([], 0, base), cs);
    r.Some? && Valid(base, r.value) && Splits(r.value, n) && !Valid(base, Malloc(r.value, n))
  }

  lemma BreakingBreaks(base: nat, n: nat)
    requires !SafeRequest(n)
    ensures Breaks(base, n, Breaking(base, n))
  {
    BreakingRun(base, n);
    MallocKeepsValidIff(base, ThreeBlocks(base, n - 1, 3), n);
  }

  ghost predicate CanBreak(base: nat, n: nat) {
    exists cs :: Breaks(base, n, cs)
  }

  /** Exactly the requests of 3 to 37 bytes can break the list. */
  lemma UnsafeRequestsAreExact(base: nat, n: nat)
    ensures CanBreak(base, n) <==> 3 <= n <= 37
  {
    if SafeRequest(n) {
      forall h | Valid(base, h) ensures !Splits(h, n) { SafeRequestNeverSplits(base, h, n); }
    } else {
      BreakingBreaks(base, n);
    }
  }

  /** Two live blocks share payload bytes. */
  ghost predicate PayloadsMeet(bs: seq<Block>) {
    exists i, j {:trigger bs[i], bs[j]} :: 0 <= i < j < |bs| && !bs[i].free && !bs[j].free
      && bs[i].addr + META < End(bs[j]) && bs[j].addr + META < End(bs[i])
  }

  /** After the call that breaks the list, the calls `after`, of safe sizes only, hand
      out one payload over another. */
  ghost predicate Collides(base: nat, n: nat, cs: seq<Call>, after: seq<Call>) {
    && Breaks(base, n, cs)
    && (forall c :: c in after ==> SafeRequest(RequestOf(c)))
    && var r := Run(Malloc(Run(Heap([], 0, base), cs).value, n), after);
       r.Some? && PayloadsMeet(r.value.blocks)
  }

  /** A free block in front makes the counter count again; the next request then merges
      the remainder into the lowest block, across the live one between them. The first
      of these calls grows the heap and the last one merges, which needs no address
      order, so on memory they do what they do on the list. */
  function Colliding(base: nat, n: nat): seq<Call>
    requires n > 0
  {
    [CallMalloc(1), CallFree(base + 3 * (META + n - 1) + META), CallMalloc(2 * n + META - 4)]
  }

  /** The list after the call that breaks it, behind the blocks `front`. */
  function Broken(base: nat, n: nat, front: seq<Block>): seq<Block>
    requires n > 2
  {
    front + [Block(base + META + n - 1, n, false), Block(base + 2 * META + 2 * n - 1, n - 2, true),
             Block(base, n - 1, true)]
  }

  /** The heap before, between and after the first two of the calls. */
  function Around(base: nat, n: nat, front: seq<Block>, total: int): Heap
    requires n > 2
  {
    Heap(Broken(base, n, front), total, base + 3 * (META + n - 1) + |front| * (META + 1))
  }

  lemma BreakingCall(base: nat, n: nat)
    requires !SafeRequest(n)
    ensures Malloc(ThreeBlocks(base, n - 1, 3), n) == Around(base, n, [], 0)
  {
    var h := ThreeBlocks(base, n - 1, 3);
    assert Search(h.blocks, n, 0) == Search(h.blocks, n, 1) == Merge2(1);
    var b := Block(base + META + n - 1, 2 * (n - 1) + META, true);
    assert Rearranged(h.blocks, n, Merge2(1)) == [b, h.blocks[2]];
    assert Take([b, h.blocks[2]], n, 0) == Broken(base, n, []);
  }

  /** The remainder and the lowest block are neighbours in the list but not in the heap. */
  lemma MergeAcross(base: nat, n: nat, d: Block, h: Heap)
    requires n > 2 && d.size < n && d.free && h.blocks == Broken(base, n, [d]) && h.total > 0
    ensures PayloadsMeet(Malloc(h, 2 * n + META - 4).blocks)
  {
    var bs, k := h.blocks, 2 * n + META - 4;
    assert Here(bs, k, 0) == NoFit && Here(bs, k, 1) == NoFit && Here(bs, k, 2) == NoFit && Here(bs, k, 3) == Merge2(3);
    assert Search(bs, k, 2) == Search(bs, k, 3) == Merge2(3);
    assert Search(bs, k, 0) == Search(bs, k, 1) == Search(bs, k, 2);
    assert Rearranged(bs, k, Merge2(3)) == [bs[0], bs[1], Block(base, k + 1, true)];
    var r := Malloc(h, k).blocks;
    assert r == [bs[0], bs[1], Block(base, k + 1, false)];
    assert r[1].addr + META < End(r[2]) && r[2].addr + META < End(r[1]);
  }

  lemma FreeFirst(h: Heap, d: Block)
    requires h.blocks != [] && h.blocks[0] == d && !d.free
    requires forall i :: 0 < i < |h.blocks| ==> h.blocks[i].addr != d.addr
    ensures IsLive(h.blocks, d.addr + META)
    ensures Free(h, d.addr + META) == Heap([d.(free := true)] + h.blocks[1..], h.total + 1, h.brk)
  {
    assert h.blocks[0].addr + META == d.addr + META;
  }

  lemma CollidingSteps(base: nat, n: nat, brk: nat, d: Block)
    requires n > 2 && brk == base + 3 * (META + n - 1) && d == Block(brk, 1, false)
    ensures Malloc(Around(base, n, [], 0), 1) == Around(base, n, [d], 0)
    ensures IsLive(Around(base, n, [d], 0).blocks, brk + META)
    ensures Free(Around(base, n, [d], 0), brk + META) == Around(base, n, [d.(free := true)], 1)
  {
    FreeFirst(Around(base, n, [d], 0), d);
  }

  lemma CollidingRun(base: nat, n: nat, h: Heap)
    requires n > 2 && h == Around(base, n, [], 0)
    ensures var r := Run(h, Colliding(base, n)); r.Some? && PayloadsMeet(r.value.blocks)
  {
    var cs, brk := Colliding(base, n), base + 3 * (META + n - 1);
    var d := Block(brk, 1, false);
    var h' := Around(base, n, [d.(free := true)], 1);
    CollidingSteps(base, n, brk, d);
    MergeAcross(base, n, d.(free := true), h');
    RunThree(cs, h, Around(base, n, [d], 0), h', Malloc(h', 2 * n + META - 4));
  }

  lemma BreakingCollides(base: nat, n: nat)
    requires !SafeRequest(n)
    ensures Collides(base, n, Breaking(base, n), Colliding(base, n))
  {
    BreakingBreaks(base, n);
    BreakingRun(base, n);
    BreakingCall(base, n);
    CollidingRun(base, n, Malloc(ThreeBlocks(base, n - 1, 3), n));
  }

  ghost predicate CanCollide(base: nat, n: nat) {
    exists cs, after :: Collides(base, n, cs, after)
  }

  /** Exactly the requests of 3 to 37 bytes can lead to live payloads that overlap. */
  lemma CollisionsAreExact(base: nat, n: nat)
    ensures CanCollide(base, n) <==> 3 <= n <= 37
  {
    UnsafeRequestsAreExact(base, n);
    if SafeRequest(n) {
      forall cs, after ensures !Collides(base, n, cs, after) { assert !Breaks(base, n, cs); }
    } else {
      BreakingCollides(base, n);
    }
  }
}
