/** `malloc/alloc.c`: the allocator over raw memory.

    Memory is two views of the same addresses: block headers and bytes. Writing a
    header destroys the bytes under it, so a payload that keeps its bytes was not
    written by the allocator. */
module Allocator {
  import opened BlockList
  import opened ByteValues

  /** A `meta_data` header; `prev` is never read by the allocator. */
  datatype Meta = Meta(ptr: nat, size: nat, free: char, next: nat)

  type Bytes = map<nat, Byte>

  /** The bytes left when a header is written at `a`. */
  function Clobbered(b: Bytes, a: nat): Bytes {
    map k | k in b && !(a <= k < a + META) :: b[k]
  }

  ghost predicate SameAt(b0: Bytes, b1: Bytes, k: nat) {
    (k in b0 <==> k in b1) && (k in b0 ==> b1[k] == b0[k])
  }

  ghost predicate SameOutside(b0: Bytes, b1: Bytes, lo: nat, hi: nat) {
    forall k: nat :: k < lo || hi <= k ==> SameAt(b0, b1, k)
  }

  ghost predicate MovedAt(b0: Bytes, src: nat, b1: Bytes, dst: nat, j: nat) {
    (src + j in b0 <==> dst + j in b1) && (src + j in b0 ==> b1[dst + j] == b0[src + j])
  }

  /** The `len` bytes at `dst` are what the bytes at `src` were. */
  ghost predicate Moved(b0: Bytes, src: nat, b1: Bytes, dst: nat, len: nat) {
    forall j: nat :: j < len ==> MovedAt(b0, src, b1, dst, j)
  }

  /** The payload bytes of the blocks `live` are the same in both memories. */
  ghost predicate Kept(live: set<Block>, b0: Bytes, b1: Bytes) {
    forall b, k :: b in live && b.addr + META <= k < End(b) ==> SameAt(b0, b1, k)
  }

  // ---- the linked headers behind the block list ----

  function NodeOrNull(bs: seq<Block>, i: nat): nat {
    if i < |bs| then bs[i].addr else 0
  }

  function Flag(free: bool): char {
    if free then '1' else '0'
  }

  /** The header of block `i`. */
  ghost predicate Header(m: map<nat, Meta>, bs: seq<Block>, i: nat)
    requires i < |bs|
  {
    && bs[i].addr > 0 && bs[i].addr in m
    && m[bs[i].addr] == Meta(bs[i].addr + META, bs[i].size, Flag(bs[i].free), NodeOrNull(bs, i + 1))
  }

  ghost predicate Linked(m: map<nat, Meta>, head: nat, bs: seq<Block>) {
    && head == NodeOrNull(bs, 0)
    && forall i :: 0 <= i < |bs| ==> Header(m, bs, i)
  }

  /** Blocks that do not meet have their headers apart. */
  ghost predicate Apart(bs: seq<Block>) {
    forall i, j :: 0 <= i < j < |bs| ==> bs[j].addr != bs[i].addr
  }

  lemma ScatteredIsApart(base: nat, brk: nat, bs: seq<Block>)
    requires Scattered(base, brk, bs)
    ensures Apart(bs)
  {
    forall i, j | 0 <= i < j < |bs| ensures bs[j].addr != bs[i].addr { assert Separate(bs[i], bs[j]); }
  }

  lemma TiledIsApart(base: nat, brk: nat, bs: seq<Block>)
    requires Tiled(base, brk, bs)
    ensures Apart(bs)
  {
    TiledIsScattered(base, brk, bs);
    ScatteredIsApart(base, brk, bs);
  }

  ghost predicate FreshAddress(bs: seq<Block>, a: nat) {
    a > 0 && forall i :: 0 <= i < |bs| ==> bs[i].addr != a
  }

  lemma InsideIsFresh(base: nat, brk: nat, bs: seq<Block>, i: nat, a: nat)
    requires Tiled(base, brk, bs) && i < |bs| && bs[i].addr < a < End(bs[i])
    ensures FreshAddress(bs, a)
  {
    forall j | 0 <= j < |bs| ensures bs[j].addr != a {
      if j < i { TiledOrder(base, brk, bs, j, i); }
      if i < j { TiledOrder(base, brk, bs, i, j); }
    }
  }

  /** A header written over a block's own header, or inside a free block, leaves
      every live payload alone. */
  lemma HeaderWriteKeeps(base: nat, brk: nat, bs: seq<Block>, i: nat, a: nat, b: Bytes)
    requires Scattered(base, brk, bs) && i < |bs|
    requires a == bs[i].addr || (bs[i].free && bs[i].addr + META <= a && a + META <= End(bs[i]))
    ensures Kept(Live(bs), b, Clobbered(b, a))
  {
    var b1 := Clobbered(b, a);
    forall x, k | x in Live(bs) && x.addr + META <= k < End(x) ensures SameAt(b, b1, k) {
      var j :| 0 <= j < |bs| && bs[j] == x;
      if i < j { assert Separate(bs[i], bs[j]); }
      if j < i { assert Separate(bs[j], bs[i]); }
      assert !(a <= k < a + META);
    }
  }

  lemma KeptTransitive(live: set<Block>, b0: Bytes, b1: Bytes, b2: Bytes)
    requires Kept(live, b0, b1) && Kept(live, b1, b2)
    ensures Kept(live, b0, b2)
  {
    forall b, k | b in live && b.addr + META <= k < End(b) ensures SameAt(b0, b2, k) {
      assert SameAt(b0, b1, k) && SameAt(b1, b2, k);
    }
  }

  /** The cursor is null just at the end of the list. */
  lemma NullEnds(m: map<nat, Meta>, head: nat, bs: seq<Block>, i: nat)
    requires Linked(m, head, bs) && i <= |bs|
    ensures NodeOrNull(bs, i) == 0 <==> i == |bs|
  {
    if i < |bs| { assert Header(m, bs, i); }
  }

  // ---- relinking ----

  /** The split branch of `find_fit`: the remainder `a` goes in front of block `i`. */
  lemma SplitLinks(m: map<nat, Meta>, head: nat, bs: seq<Block>, n: nat, i: nat, a: nat, m': map<nat, Meta>)
    requires Linked(m, head, bs) && Apart(bs) && FreshAddress(bs, a)
    requires i < |bs| && bs[i].free && bs[i].size > n + META && a == bs[i].addr + META + n
    requires var cur := bs[i].addr;
      var m1 := m[a := Meta(a + META, bs[i].size - n - META, '1', cur)];
      var m2 := if i == 0 then m1
                else m1[bs[i - 1].addr := Meta(bs[i - 1].addr + META, bs[i - 1].size, Flag(bs[i - 1].free), a)];
      m' == m2[cur := Meta(cur + META, n, '1', NodeOrNull(bs, i + 1))]
    ensures Linked(m', if i == 0 then a else head, Rearranged(bs, n, Split(i)))
  {
    var r := Rearranged(bs, n, Split(i));
    assert Header(m, bs, i);
    forall j | 0 <= j < |r| ensures Header(m', r, j) {
      if j < i { assert Header(m, bs, j) && r[j] == bs[j]; }
      if j > i + 1 { assert Header(m, bs, j - 1) && r[j] == bs[j - 1]; }
    }
  }

  /** A merge branch of `help_merge`: block `i` swallows the `w` blocks above it. */
  lemma MergeLinks(m: map<nat, Meta>, head: nat, bs: seq<Block>, i: nat, w: nat, size: nat, m': map<nat, Meta>)
    requires Linked(m, head, bs) && Apart(bs) && 1 <= w <= i < |bs| && bs[i].free
    requires var cur := bs[i].addr;
      var m1 := m[cur := Meta(cur + META, size, '1', NodeOrNull(bs, i + 1))];
      m' == if i == w then m1
            else m1[bs[i - w - 1].addr :=
                    Meta(bs[i - w - 1].addr + META, bs[i - w - 1].size, Flag(bs[i - w - 1].free), cur)]
    ensures Linked(m', if i == w then bs[i].addr else head, Splice(bs, i - w, i + 1, [bs[i].(size := size)]))
  {
    var r := Splice(bs, i - w, i + 1, [bs[i].(size := size)]);
    assert Header(m, bs, i);
    forall j | 0 <= j < |r| ensures Header(m', r, j) {
      if j < i - w { assert Header(m, bs, j) && r[j] == bs[j]; }
      if j > i - w { assert Header(m, bs, j + w) && r[j] == bs[j + w]; }
    }
  }

  /** One header changes its flag. */
  lemma FlagLinks(m: map<nat, Meta>, head: nat, bs: seq<Block>, i: nat, free: bool)
    requires Linked(m, head, bs) && Apart(bs) && i < |bs|
    ensures var a := bs[i].addr;
      a in m && Linked(m[a := m[a].(free := Flag(free))], head, Splice(bs, i, i + 1, [bs[i].(free := free)]))
  {
    assert Header(m, bs, i);
    var m' := m[bs[i].addr := m[bs[i].addr].(free := Flag(free))];
    var r := Splice(bs, i, i + 1, [bs[i].(free := free)]);
    forall j | 0 <= j < |r| ensures Header(m', r, j) {
      assert Header(m, bs, j) && (j != i ==> r[j] == bs[j]);
    }
  }

  /** `split_helper`: the remainder `a` goes behind block `i`. */
  lemma SplitHelperLinks(m: map<nat, Meta>, head: nat, bs: seq<Block>, n: nat, i: nat, a: nat, m': map<nat, Meta>)
    requires Linked(m, head, bs) && Apart(bs) && FreshAddress(bs, a)
    requires i < |bs| && bs[i].size >= n + META && a == bs[i].addr + META + n
    requires var cur := bs[i].addr;
      m' == m[a := Meta(a + META, bs[i].size - n - META, '1', NodeOrNull(bs, i + 1))]
             [cur := Meta(cur + META, n, '0', a)]
    ensures Linked(m', head, Splice(bs, i, i + 1, [Block(bs[i].addr, n, false), Block(a, bs[i].size - n - META, true)]))
  {
    var r := Splice(bs, i, i + 1, [Block(bs[i].addr, n, false), Block(a, bs[i].size - n - META, true)]);
    assert Header(m, bs, i);
    forall j | 0 <= j < |r| ensures Header(m', r, j) {
      if j < i { assert Header(m, bs, j) && r[j] == bs[j]; }
      if j > i + 1 { assert Header(m, bs, j - 1) && r[j] == bs[j - 1]; }
    }
  }

  lemma GrowLinks(m: map<nat, Meta>, head: nat, bs: seq<Block>, a: nat, size: nat)
    requires Linked(m, head, bs) && FreshAddress(bs, a)
    ensures Linked(m[a := Meta(a + META, size, '0', head)], a, [Block(a, size, false)] + bs)
  {
    var m' := m[a := Meta(a + META, size, '0', head)];
    var r := [Block(a, size, false)] + bs;
    forall j | 0 <= j < |r| ensures Header(m', r, j) {
      if j > 0 { assert Header(m, bs, j - 1); }
    }
  }

  function MergeChoice(bs: seq<Block>, n: nat, i: nat): (c: Choice)
    requires i < |bs|
    ensures InRange(bs, n, c)
  {
    if PairFits(bs, n, i) then Merge2(i) else if TripleFits(bs, n, i) then Merge3(i) else NoFit
  }

  class Allocator {
    const base: nat
    var brk: nat
    var head: nat
    var totalFree: int
    var meta: map<nat, Meta>
    var bytes: Bytes
    /** The blocks in list order. */
    ghost var blocks: seq<Block>

    ghost function Abs(): Heap
      reads `blocks, `totalFree, `brk
    {
      Heap(blocks, totalFree, brk)
    }

    ghost predicate IsList()
      reads `meta, `head, `blocks
    {
      base > 0 && Linked(meta, head, blocks)
    }

    ghost predicate Shaped()
      reads `meta, `head, `blocks, `brk
    {
      IsList() && Tiled(base, brk, blocks)
    }

    /** What also holds after `split_helper`: the headers link blocks that do not meet. */
    ghost predicate Loose()
      reads `meta, `head, `blocks, `brk
    {
      IsList() && Scattered(base, brk, blocks)
    }

    ghost predicate Valid()
      reads `meta, `head, `blocks, `totalFree, `brk
    {
      IsList() && BlockList.Valid(base, Abs())
    }

    /** Nothing has been requested; the break stands at `base`. */
    constructor (base: nat)
      requires base > 0
      ensures Valid() && Abs() == Heap([], 0, base) && this.base == base
    {
      this.base := base;
      brk, head, totalFree := base, 0, 0;
      meta, bytes, blocks := map[], map[], [];
    }

    method WriteMeta(a: nat, m: Meta)
      modifies `meta, `bytes
      ensures meta == old(meta)[a := m] && bytes == Clobbered(old(bytes), a)
    {
      meta := meta[a := m];
      bytes := Clobbered(bytes, a);
    }

    method SetNewBlk(cur: nat, size: nat) returns (r: nat)
      requires cur in meta && meta[cur].size >= size + META
      modifies `meta, `bytes
      ensures r == cur + META + size
      ensures meta == old(meta)[r := Meta(r + META, old(meta)[cur].size - size - META, '1', cur)]
      ensures bytes == Clobbered(old(bytes), r)
    {
      r := cur + META + size;
      WriteMeta(r, Meta(r + META, meta[cur].size - size - META, '1', cur));
    }

    /** The cursors trail `current`, which is block `i` of the list. */
    ghost predicate Cursors(first: nat, second: nat, third: nat, i: nat)
      reads `blocks
    {
      && first == (if 1 <= i <= |blocks| then blocks[i - 1].addr else 0)
      && second == (if 2 <= i <= |blocks| then blocks[i - 2].addr else 0)
      && third == (if 3 <= i <= |blocks| then blocks[i - 3].addr else 0)
    }

    /** What both branches of `help_merge` do: grow `current` to `size`, and make the
        node above the swallowed blocks (or `head`) point to it. */
    method Absorb(current: nat, above: nat, size: nat, ghost i: nat, ghost w: nat)
      requires Shaped() && 1 <= w <= i < |blocks| && current == blocks[i].addr && blocks[i].free
      requires above == (if i == w then 0 else blocks[i - w - 1].addr)
      modifies `head, `meta, `bytes, `blocks
      ensures IsList()
      ensures blocks == Splice(old(blocks), i - w, i + 1, [old(blocks)[i].(size := size)])
      ensures Kept(Live(old(blocks)), old(bytes), bytes)
    {
      TiledIsScattered(base, brk, blocks);
      ScatteredIsApart(base, brk, blocks);
      assert Header(meta, blocks, i) && (i > w ==> Header(meta, blocks, i - w - 1));
      HeaderWriteKeeps(base, brk, blocks, i, current, bytes);
      WriteMeta(current, meta[current].(size := size));
      if above == 0 {
        head := current;
      } else {
        HeaderWriteKeeps(base, brk, blocks, i - w - 1, above, bytes);
        KeptTransitive(Live(blocks), old(bytes), bytes, Clobbered(bytes, above));
        WriteMeta(above, meta[above].(next := current));
      }
      MergeLinks(old(meta), old(head), blocks, i, w, size, meta);
      blocks := Splice(blocks, i - w, i + 1, [blocks[i].(size := size)]);
    }

    method HelpMerge(first: nat, second: nat, third: nat, current: nat, size: nat, ghost i: nat) returns (chosen: nat)
      requires Shaped() && 1 <= i < |blocks| && current == blocks[i].addr && Cursors(first, second, third, i)
      requires blocks[i - 1].free
      modifies `head, `totalFree, `meta, `bytes, `blocks
      ensures IsList()
      ensures var c := MergeChoice(old(blocks), size, i);
        && blocks == Rearranged(old(blocks), size, c) && totalFree == old(totalFree) + TotalChange(c)
        && (c == NoFit ==> chosen == 0 && meta == old(meta) && bytes == old(bytes) && head == old(head))
        && (c != NoFit ==> chosen == current == blocks[ChosenAt(c)].addr)
        && Kept(Live(old(blocks)), old(bytes), bytes)
    {
      assert Header(meta, blocks, i) && Header(meta, blocks, i - 1) && (i >= 2 ==> Header(meta, blocks, i - 2));
      if meta[current].free == '1' && size < meta[first].size + meta[current].size + META {
        Absorb(current, second, meta[current].size + meta[first].size + META, i, 1);
        totalFree := totalFree - 1;
        totalFree := totalFree - 1;
        return current;
      }
      if second != 0 && meta[second].free == '1' && meta[current].free == '1'
        && meta[first].size + meta[second].size + meta[current].size + 2 * META >= size {
        Absorb(current, third, meta[current].size + (meta[first].size + meta[second].size + 2 * META), i, 2);
        totalFree := totalFree - 1;
        totalFree := totalFree - 1;
        totalFree := totalFree - 1;
        return current;
      }
      return 0;
    }

    /** The header writes of a split: the remainder's, the one of the node above (or
        `head`), and the block's own. */
    method LinkRemainder(current: nat, size: nat, ghost above: nat) returns (newBlock: nat)
      requires current in meta && meta[current].size > size + META
      requires current != head ==> above == current + META + meta[current].size && above in meta
      requires current != head ==> above != current && above != current + META + size
      modifies `head, `meta, `bytes
      ensures newBlock == current + META + size && head == if current == old(head) then newBlock else old(head)
      ensures var rest := old(meta)[current].size - size - META;
        var m1 := old(meta)[newBlock := Meta(newBlock + META, rest, '1', current)];
        var m2 := if current == old(head) then m1 else m1[above := old(meta)[above].(next := newBlock)];
        meta == m2[current := old(meta)[current].(size := size)]
      ensures var b1 := Clobbered(old(bytes), newBlock);
        bytes == Clobbered(if current == old(head) then b1 else Clobbered(b1, above), current)
    {
      newBlock := SetNewBlk(current, size);
      if current == head {
        head := newBlock;
      } else {
        var temp := current + META + meta[current].size;
        WriteMeta(temp, meta[temp].(next := newBlock));
      }
      WriteMeta(current, meta[current].(size := size));
    }

    /** The split branch of `find_fit`. */
    method SplitBlock(current: nat, size: nat, ghost i: nat)
      requires Shaped() && i < |blocks| && current == blocks[i].addr && blocks[i].free && blocks[i].size > size + META
      modifies `head, `totalFree, `meta, `bytes, `blocks
      ensures IsList()
      ensures blocks == Rearranged(old(blocks), size, Split(i)) && totalFree == old(totalFree) + 1
      ensures Kept(Live(old(blocks)), old(bytes), bytes)
    {
      TiledIsApart(base, brk, blocks);
      InsideIsFresh(base, brk, blocks, i, current + META + size);
      assert End(blocks[i]) == Above(brk, blocks, i);
      assert Header(meta, blocks, i) && (i > 0 ==> Header(meta, blocks, i - 1));
      SplitKeeps(base, brk, blocks, i, current + META + size, bytes);
      assert current == head <==> i == 0;
      var newBlock := LinkRemainder(current, size, if i == 0 then 0 else blocks[i - 1].addr);
      totalFree := totalFree + 1;
      SplitLinks(old(meta), old(head), blocks, size, i, newBlock, meta);
      blocks := Rearranged(blocks, size, Split(i));
    }

    /** One round of `find_fit`'s loop. */
    method Visit(first: nat, second: nat, third: nat, current: nat, size: nat, ghost i: nat) returns (chosen: nat)
      requires Shaped() && i < |blocks| && current == blocks[i].addr && Cursors(first, second, third, i)
      modifies `head, `totalFree, `meta, `bytes, `blocks
      ensures IsList()
      ensures var c := Here(old(blocks), size, i);
        && blocks == Rearranged(old(blocks), size, c) && totalFree == old(totalFree) + TotalChange(c)
        && (c == NoFit ==> chosen == 0 && meta == old(meta) && bytes == old(bytes) && head == old(head))
        && (c != NoFit ==> chosen == current == blocks[ChosenAt(c)].addr)
        && Kept(Live(old(blocks)), old(bytes), bytes)
    {
      assert Header(meta, blocks, i) && (i > 0 ==> Header(meta, blocks, i - 1));
      if meta[current].free == '1' && meta[current].size >= size {
        if meta[current].size > size + META {
          SplitBlock(current, size, i);
          return current;
        } else {
          assert Rearranged(blocks, size, Exact(i)) == blocks;
          totalFree := totalFree - 1;
          return current;
        }
      }
      if first != 0 && meta[first].free == '1' {
        chosen := HelpMerge(first, second, third, current, size, i);
      } else {
        return 0;
      }
    }

    method FindFit(size: nat) returns (chosen: nat)
      requires Shaped()
      modifies `head, `totalFree, `meta, `bytes, `blocks
      ensures IsList()
      ensures var c := Find(old(Abs()), size);
        && blocks == Rearranged(old(blocks), size, c) && totalFree == old(totalFree) + TotalChange(c)
        && (c == NoFit ==> chosen == 0)
        && (c != NoFit ==> chosen != 0 && chosen == blocks[ChosenAt(c)].addr)
        && Kept(Live(old(blocks)), old(bytes), bytes)
    {
      NullEnds(meta, head, blocks, 0);
      if totalFree == 0 { return 0; }
      if head == 0 { return 0; }
      if size == 0 { return 0; }

      ghost var bs := blocks;
      var current := head;
      var first, second, third := 0, 0, 0;
      ghost var i := 0;
      while current != 0
        invariant 0 <= i <= |blocks| && current == NodeOrNull(blocks, i) && Cursors(first, second, third, i)
        invariant blocks == bs && Search(bs, size, 0) == Search(bs, size, i)
        invariant head == old(head) && totalFree == old(totalFree) && meta == old(meta) && bytes == old(bytes)
        decreases |blocks| - i
      {
        assert Header(meta, blocks, i);
        chosen := Visit(first, second, third, current, size, i);
        if chosen != 0 {
          return chosen;
        } else {
          third := second;
          second := first;
          first := current;
          current := meta[current].next;
          i := i + 1;
        }
      }
      NullEnds(meta, head, blocks, i);
      return 0;
    }

    /** `split_helper`, on the block `malloc` has just marked as taken. */
    method SplitHelper(size: nat, current: nat, ghost k: nat) returns (p: nat)
      requires Shaped() && k < |blocks| && current == blocks[k].addr
      requires blocks[k].size >= size && Oversized(blocks[k].size, size)
      modifies `totalFree, `meta, `bytes, `blocks
      ensures IsList() && p == current + META && totalFree == old(totalFree) - 1
      ensures blocks == Splice(old(blocks), k, k + 1,
        [Block(current, size, false), Block(current + META + size, old(blocks)[k].size - size - META, true)])
      ensures bytes == Clobbered(Clobbered(old(bytes), current + META + size), current)
    {
      TiledIsApart(base, brk, blocks);
      InsideIsFresh(base, brk, blocks, k, current + META + size);
      assert Header(meta, blocks, k);
      var newBlock := meta[current].ptr + size;
      WriteMeta(newBlock, Meta(newBlock + META, meta[current].size - size - META, '1', meta[current].next));
      WriteMeta(current, meta[current].(free := '0', size := size, next := newBlock));
      totalFree := totalFree - 1;
      SplitHelperLinks(old(meta), head, blocks, size, k, newBlock, meta);
      blocks := Splice(blocks, k, k + 1,
        [Block(current, size, false), Block(newBlock, blocks[k].size - size - META, true)]);
      return meta[current].ptr;
    }

    /** Growing the heap: `sbrk` for the header, `sbrk` for the payload. */
    method Grow(size: nat) returns (p: nat)
      requires Shaped() && size > 0
      modifies `brk, `head, `meta, `bytes, `blocks
      ensures IsList() && p == old(brk) + META
      ensures blocks == [Block(old(brk), size, false)] + old(blocks) && brk == old(brk) + META + size
      ensures Kept(Live(old(blocks)), old(bytes), bytes)
    {
      BreakIsFresh(base, brk, blocks, bytes);
      var chosen := brk;
      brk := brk + META;
      p := brk;
      brk := brk + size;
      WriteMeta(chosen, Meta(p, size, '0', head));
      GrowLinks(old(meta), old(head), blocks, chosen, size);
      head := chosen;
      blocks := [Block(chosen, size, false)] + blocks;
    }

    /** `malloc`'s use of the block `find_fit` chose. */
    method Claim(chosen: nat, size: nat, ghost k: nat) returns (p: nat)
      requires Shaped() && k < |blocks| && chosen == blocks[k].addr && blocks[k].free && blocks[k].size >= size
      modifies `totalFree, `meta, `bytes, `blocks
      ensures IsList() && p == chosen + META
      ensures blocks == Take(old(blocks), size, k)
      ensures totalFree == old(totalFree) - (if Oversized(old(blocks)[k].size, size) then 1 else 0)
      ensures Kept(Live(old(blocks)), old(bytes), bytes)
    {
      ghost var bs := blocks;
      TiledIsApart(base, brk, blocks);
      assert Header(meta, blocks, k);
      TakeKeeps(base, brk, bs, size, k, bytes);
      FlagLinks(meta, head, blocks, k, false);
      FlagTiles(base, brk, bs, k);
      WriteMeta(chosen, meta[chosen].(free := '0'));
      blocks := Splice(blocks, k, k + 1, [blocks[k].(free := false)]);
      if meta[chosen].size - size > META && meta[chosen].size - size > 2 * size {
        TakeInTwoSteps(bs, size, k);
        p := SplitHelper(size, chosen, k);
        return p;
      }
      return meta[chosen].ptr;
    }

    /** `malloc` of a heap `h` after `find_fit` has rearranged it. */
    method Reuse(chosen: nat, size: nat, ghost h: Heap) returns (p: nat)
      requires BlockList.Valid(base, h) && Find(h, size) != NoFit && IsList() && brk == h.brk
      requires blocks == Rearranged(h.blocks, size, Find(h, size)) && totalFree == h.total + TotalChange(Find(h, size))
      requires ChosenAt(Find(h, size)) < |blocks| && chosen == blocks[ChosenAt(Find(h, size))].addr
      modifies `totalFree, `meta, `bytes, `blocks
      ensures IsList() && Abs() == BlockList.Malloc(h, size) && size > 0 && p == Granted(h, size).addr + META
      ensures Kept(Live(h.blocks), old(bytes), bytes)
    {
      FoundIsTaken(base, h, size);
      p := Claim(chosen, size, ChosenAt(Find(h, size)));
    }

    /** `malloc` of at least one byte. */
    method Provide(size: nat) returns (p: nat)
      requires Valid() && size > 0
      modifies `brk, `head, `totalFree, `meta, `bytes, `blocks
      ensures IsList() && Abs() == BlockList.Malloc(old(Abs()), size)
      ensures p == Granted(old(Abs()), size).addr + META
      ensures Kept(Live(old(blocks)), old(bytes), bytes)
    {
      ghost var h := Abs();
      var chosen := FindFit(size);
      ghost var b := bytes;
      if chosen != 0 {
        ChosenIsInside(h.blocks, size, Find(h, size));
        p := Reuse(chosen, size, h);
      } else {
        p := Grow(size);
      }
      KeptTransitive(Live(h.blocks), old(bytes), b, bytes);
    }

    method Malloc(size: nat) returns (p: nat)
      requires Valid()
      modifies `brk, `head, `totalFree, `meta, `bytes, `blocks
      ensures Loose() && Abs() == BlockList.Malloc(old(Abs()), size)
      ensures size == 0 ==> p == 0 && Abs() == old(Abs())
      ensures size > 0 ==> p == Granted(old(Abs()), size).addr + META && Grants(old(Abs()), size, blocks)
      ensures Valid() <==> !Splits(old(Abs()), size)
      ensures Kept(Live(old(blocks)), old(bytes), bytes)
    {
      ghost var h := Abs();
      MallocKeepsValidIff(base, h, size);
      MallocScatters(base, h, size);
      if size == 0 {
        return 0;
      }
      MallocGrants(base, h, size);
      p := Provide(size);
    }

    /** The end of `free`: the block is marked, and the test for merging fails, as
        flags are the characters '0' and '1' and never the number 1. */
    method Mark(temp: nat, ghost k: nat)
      requires Loose() && k < |blocks| && blocks[k].addr == temp
      modifies `totalFree, `meta, `bytes, `blocks
      ensures IsList() && totalFree == old(totalFree) + 1
      ensures blocks == Splice(old(blocks), k, k + 1, [old(blocks)[k].(free := true)])
      ensures Kept(Live(old(blocks)), old(bytes), bytes)
    {
      assert Header(meta, blocks, k) && (k + 1 < |blocks| ==> Header(meta, blocks, k + 1));
      ScatteredIsApart(base, brk, blocks);
      HeaderWriteKeeps(base, brk, blocks, k, temp, bytes);
      FlagLinks(meta, head, blocks, k, true);
      WriteMeta(temp, meta[temp].(free := '1'));
      if meta[temp].next != 0 && meta[meta[temp].next].free == 1 as char {
        assert false;
      }
      totalFree := totalFree + 1;
      blocks := Splice(blocks, k, k + 1, [blocks[k].(free := true)]);
    }

    /** `free` of a live block. */
    method Release(p: nat, temp: nat, ghost k: nat)
      requires Loose() && k < |blocks| && blocks[k].addr == temp && temp + META == p && !blocks[k].free
      modifies `totalFree, `meta, `bytes, `blocks
      ensures Loose() && Abs() == BlockList.Free(old(Abs()), p)
      ensures Valid() <==> old(Valid())
      ensures Kept(Live(old(blocks)), old(bytes), bytes)
    {
      FreeKeepsValid(base, Abs(), p);
      FreedIsSplice(base, Abs(), k);
      Mark(temp, k);
    }

    method Free(p: nat)
      requires Loose() && (p == 0 || p >= brk || Handed(blocks, p))
      modifies `totalFree, `meta, `bytes, `blocks
      ensures Loose() && Abs() == BlockList.Free(old(Abs()), p)
      ensures Releases(old(Abs()), p, Abs())
      ensures Valid() <==> old(Valid())
      ensures Kept(Live(old(blocks)), old(bytes), bytes)
    {
      FreedLive(base, Abs(), p);
      if p == 0 || p >= brk { NotHanded(base, brk, blocks, p); }
      NullEnds(meta, head, blocks, 0);
      if head == 0 {
        return;
      }
      if p == 0 {
        return;
      }
      if p >= brk {
        return;
      }
      ghost var k :| 0 <= k < |blocks| && blocks[k].addr + META == p;
      assert Header(meta, blocks, k);
      FlagDecidesLive(base, brk, blocks, k);
      var temp := p - META;
      if meta[temp].free == '1' {
        return;
      }
      Release(p, temp, k);
    }

    /** `memset(p, 0, len)` */
    method Zero(p: nat, len: nat)
      modifies `bytes
      ensures SameOutside(old(bytes), bytes, p, p + len)
      ensures forall k :: p <= k < p + len ==> k in bytes && bytes[k] == 0
    {
      for j := 0 to len
        invariant SameOutside(old(bytes), bytes, p, p + len)
        invariant forall k :: p <= k < p + j ==> k in bytes && bytes[k] == 0
      {
        ghost var before := bytes;
        bytes := bytes[p + j := 0];
        forall k: nat | k < p || p + len <= k ensures SameAt(old(bytes), bytes, k) {
          assert SameAt(old(bytes), before, k);
        }
      }
    }

    /** `memcpy(dst, src, len)` between disjoint stretches. */
    method CopyBytes(dst: nat, src: nat, len: nat)
      requires src + len <= dst || dst + len <= src
      modifies `bytes
      ensures SameOutside(old(bytes), bytes, dst, dst + len)
      ensures Moved(old(bytes), src, bytes, dst, len)
    {
      for j := 0 to len
        invariant SameOutside(old(bytes), bytes, dst, dst + len)
        invariant Moved(old(bytes), src, bytes, dst, j)
      {
        assert SameAt(old(bytes), bytes, src + j);
        ghost var before := bytes;
        bytes := if src + j in bytes then bytes[dst + j := bytes[src + j]] else bytes - {dst + j};
        forall k: nat | k < dst || dst + len <= k ensures SameAt(old(bytes), bytes, k) {
          assert SameAt(old(bytes), before, k);
        }
        forall i: nat | i < j ensures MovedAt(old(bytes), src, bytes, dst, i) {
          assert MovedAt(old(bytes), src, before, dst, i);
        }
      }
    }

    /** `malloc` and `memset`. */
    method ZeroedMalloc(n: nat) returns (p: nat)
      requires Valid()
      modifies `brk, `head, `totalFree, `meta, `bytes, `blocks
      ensures Loose() && Abs() == BlockList.Malloc(old(Abs()), n)
      ensures n == 0 ==> p == 0 && Abs() == old(Abs())
      ensures n > 0 ==> p == Granted(old(Abs()), n).addr + META && Grants(old(Abs()), n, blocks)
      ensures Valid() <==> !Splits(old(Abs()), n)
      ensures Kept(Live(old(blocks)), old(bytes), bytes)
      ensures p != 0 ==> forall k :: p <= k < p + n ==> k in bytes && bytes[k] == 0
    {
      ghost var h := Abs();
      p := Malloc(n);
      if p == 0 {
        return 0;
      }
      ghost var b := bytes;
      Zero(p, n);
      OutsideKeeps(Live(h.blocks), Granted(h, n), p, n, b, bytes);
      KeptTransitive(Live(h.blocks), old(bytes), b, bytes);
    }

    method Calloc(num: nat, size: nat) returns (p: nat)
      requires Valid()
      modifies `brk, `head, `totalFree, `meta, `bytes, `blocks
      ensures Loose() && Abs() == BlockList.Malloc(old(Abs()), num * size)
      ensures num * size == 0 ==> p == 0 && Abs() == old(Abs())
      ensures num * size > 0 ==>
        p == Granted(old(Abs()), num * size).addr + META && Grants(old(Abs()), num * size, blocks)
      ensures Valid() <==> !Splits(old(Abs()), num * size)
      ensures Kept(Live(old(blocks)), old(bytes), bytes)
      ensures p != 0 ==> forall k :: p <= k < p + num * size ==> k in bytes && bytes[k] == 0
    {
      p := ZeroedMalloc(num * size);
    }

    /** `realloc` up to the copy. */
    method CopyOver(p: nat, n: nat, size: nat, ghost mine: Block) returns (r: nat)
      requires Valid() && n >= size > 0
      requires mine in Live(blocks) && mine.addr + META == p && mine.size == size
      modifies `brk, `head, `totalFree, `meta, `bytes, `blocks
      ensures Loose() && Abs() == BlockList.Malloc(old(Abs()), n)
      ensures Valid() <==> !Splits(old(Abs()), n)
      ensures r == Granted(old(Abs()), n).addr + META && Grants(old(Abs()), n, blocks)
      ensures Moved(old(bytes), p, bytes, r, size)
      ensures Kept(Live(old(blocks)), old(bytes), bytes)
    {
      ghost var h, b0 := Abs(), bytes;
      r := Malloc(n);
      ghost var b1 := bytes;
      CopyBytes(r, p, if n < size then n else size);
      OutsideKeeps(Live(h.blocks), Granted(h, n), r, size, b1, bytes);
      CopyMoves(Live(h.blocks), mine, p, r, size, b0, b1, bytes);
    }

    /** The moving branch of `realloc`. */
    method Relocate(p: nat, n: nat, size: nat, ghost mine: Block) returns (r: nat)
      requires Valid() && n >= size > 0
      requires mine in Live(blocks) && mine.addr + META == p && mine.size == size
      modifies `brk, `head, `totalFree, `meta, `bytes, `blocks
      ensures Loose() && Abs() == BlockList.Free(BlockList.Malloc(old(Abs()), n), p)
      ensures Valid() <==> !Splits(old(Abs()), n)
      ensures r == Granted(old(Abs()), n).addr + META
      ensures Live(blocks) == Live(old(blocks)) + {Granted(old(Abs()), n)} - {mine}
      ensures Moved(old(bytes), p, bytes, r, size)
      ensures Kept(Live(old(blocks)), old(bytes), bytes)
    {
      ghost var h, b0 := Abs(), bytes;
      r := CopyOver(p, n, size, mine);
      ghost var h1, b1 := Abs(), bytes;
      assert mine in Live(h1.blocks);
      ghost var k :| 0 <= k < |h1.blocks| && h1.blocks[k] == mine;
      Free(p);
      ReallocMoves(h, h1, Granted(h, n), p, r, size, b0, b1, bytes);
    }

    /** `realloc` of the live block `mine`. */
    method Resize(p: nat, n: nat, ghost mine: Block) returns (r: nat)
      requires Valid() && mine in Live(blocks) && p == mine.addr + META
      modifies `brk, `head, `totalFree, `meta, `bytes, `blocks
      ensures Loose() && Abs() == BlockList.Realloc(old(Abs()), p, n)
      ensures Reallocates(old(Abs()), mine, n, Abs())
      ensures r == if n == 0 then 0 else if n < mine.size then p else Granted(old(Abs()), n).addr + META
      ensures n > 0 ==> Moved(old(bytes), p, bytes, r, mine.size)
      ensures Kept(Live(old(blocks)), old(bytes), bytes)
    {
      ghost var h := Abs();
      ReallocReplaces(base, h, mine, n);
      TiledIsScattered(base, brk, blocks);
      if n == 0 {
        Free(p);
        return 0;
      }
      ghost var k :| 0 <= k < |blocks| && blocks[k] == mine;
      assert Header(meta, blocks, k);
      var tmp := p - META;
      var size := meta[tmp].size;
      if n < size {
        assert forall j: nat :: j < size ==> MovedAt(bytes, p, bytes, p, j);
        return p;
      }
      assert BlockList.Realloc(h, p, n) == BlockList.Free(BlockList.Malloc(h, n), p);
      r := Relocate(p, n, size, mine);
    }

    /** `realloc` of null or of a live block, which is then `mine`. */
    method Realloc(p: nat, n: nat) returns (r: nat, ghost mine: Block)
      requires Valid() && (p == 0 || IsLive(blocks, p))
      modifies `brk, `head, `totalFree, `meta, `bytes, `blocks
      ensures Loose() && Abs() == BlockList.Realloc(old(Abs()), p, n)
      ensures Valid() <==> !CallSplits(old(Abs()), CallRealloc(p, n))
      ensures n == 0 ==> r == 0
      ensures p == 0 && n == 0 ==> Abs() == old(Abs())
      ensures p == 0 && n > 0 ==> r == Granted(old(Abs()), n).addr + META && Grants(old(Abs()), n, blocks)
      ensures p != 0 ==> mine in Live(old(blocks)) && p == mine.addr + META && Reallocates(old(Abs()), mine, n, Abs())
      ensures p != 0 && n > 0 ==>
        && r == (if n < mine.size then p else Granted(old(Abs()), n).addr + META)
        && Moved(old(bytes), p, bytes, r, mine.size)
      ensures Kept(Live(old(blocks)), old(bytes), bytes)
    {
      StepKeepsValidIff(base, Abs(), CallRealloc(p, n));
      mine := Block(0, 0, false);
      if p == 0 {
        r := Malloc(n);
        return r, mine;
      }
      ghost var k :| 0 <= k < |blocks| && blocks[k].addr + META == p && !blocks[k].free;
      mine := blocks[k];
      r := Resize(p, n, mine);
    }
  }

  /** The header writes of a split touch no live payload. */
  lemma SplitKeeps(base: nat, brk: nat, bs: seq<Block>, i: nat, a: nat, b: Bytes)
    requires Tiled(base, brk, bs) && i < |bs| && bs[i].free
    requires bs[i].addr + META <= a && a + META <= End(bs[i])
    ensures i == 0 ==> Kept(Live(bs), b, Clobbered(Clobbered(b, a), bs[i].addr))
    ensures i > 0 ==> Kept(Live(bs), b, Clobbered(Clobbered(Clobbered(b, a), bs[i - 1].addr), bs[i].addr))
  {
    var b1 := Clobbered(b, a);
    TiledIsScattered(base, brk, bs);
    HeaderWriteKeeps(base, brk, bs, i, a, b);
    var b2 := if i == 0 then b1 else Clobbered(b1, bs[i - 1].addr);
    if i > 0 { HeaderWriteKeeps(base, brk, bs, i - 1, bs[i - 1].addr, b1); }
    KeptTransitive(Live(bs), b, b1, b2);
    HeaderWriteKeeps(base, brk, bs, i, bs[i].addr, b2);
    KeptTransitive(Live(bs), b, b2, Clobbered(b2, bs[i].addr));
  }

  /** Marking block `k`, and calling `split_helper` on it, write no live payload. */
  lemma TakeKeeps(base: nat, brk: nat, bs: seq<Block>, n: nat, k: nat, b: Bytes)
    requires Tiled(base, brk, bs) && k < |bs| && bs[k].free && bs[k].size >= n
    ensures var a := bs[k].addr;
      && Kept(Live(bs), b, Clobbered(b, a))
      && (Oversized(bs[k].size, n) ==> Kept(Live(bs), b, Clobbered(Clobbered(Clobbered(b, a), a + META + n), a)))
  {
    var a := bs[k].addr;
    var b1 := Clobbered(b, a);
    TiledIsScattered(base, brk, bs);
    HeaderWriteKeeps(base, brk, bs, k, a, b);
    if Oversized(bs[k].size, n) {
      var b2 := Clobbered(b1, a + META + n);
      HeaderWriteKeeps(base, brk, bs, k, a + META + n, b1);
      HeaderWriteKeeps(base, brk, bs, k, a, b2);
      KeptTransitive(Live(bs), b, b1, b2);
      KeptTransitive(Live(bs), b, b2, Clobbered(b2, a));
    }
  }

  /** Marking a block and then splitting it is `Take`. */
  lemma TakeInTwoSteps(bs: seq<Block>, n: nat, k: nat)
    requires k < |bs| && bs[k].size >= n && Oversized(bs[k].size, n)
    ensures Splice(Splice(bs, k, k + 1, [bs[k].(free := false)]), k, k + 1,
                   [Block(bs[k].addr, n, false), Block(bs[k].addr + META + n, bs[k].size - n - META, true)])
         == Take(bs, n, k)
  {
  }

  lemma FlagTiles(base: nat, brk: nat, bs: seq<Block>, k: nat)
    requires Tiled(base, brk, bs) && k < |bs|
    ensures Tiled(base, brk, Splice(bs, k, k + 1, [bs[k].(free := false)]))
  {
    assert End(bs[k]) == Above(brk, bs, k);
    TiledSplice(base, brk, bs, k, k + 1, [bs[k].(free := false)]);
  }

  lemma BreakIsFresh(base: nat, brk: nat, bs: seq<Block>, b: Bytes)
    requires base > 0 && Tiled(base, brk, bs)
    ensures FreshAddress(bs, brk)
    ensures Kept(Live(bs), b, Clobbered(b, brk))
  {
    forall i | 0 <= i < |bs| ensures End(bs[i]) <= brk && base <= bs[i].addr {
      TiledBounds(base, brk, bs, i);
    }
    assert bs != [] ==> End(bs[0]) <= brk;
    forall x, k | x in Live(bs) && x.addr + META <= k < End(x) ensures SameAt(b, Clobbered(b, brk), k) {
      var i :| 0 <= i < |bs| && bs[i] == x;
      assert End(bs[i]) <= brk;
    }
  }

  ghost predicate Handed(bs: seq<Block>, p: nat) {
    exists i :: 0 <= i < |bs| && bs[i].addr + META == p
  }

  lemma NotHanded(base: nat, brk: nat, bs: seq<Block>, p: nat)
    requires Scattered(base, brk, bs) && (p == 0 || p >= brk)
    ensures !Handed(bs, p) && !IsLive(bs, p)
  {
    forall i | 0 <= i < |bs| ensures 0 < bs[i].addr + META < brk { assert InHeap(base, brk, bs[i]); }
  }

  lemma FlagDecidesLive(base: nat, brk: nat, bs: seq<Block>, k: nat)
    requires Scattered(base, brk, bs) && k < |bs|
    ensures IsLive(bs, bs[k].addr + META) <==> !bs[k].free
  {
    ScatteredIsApart(base, brk, bs);
  }

  /** Writing inside a granted block leaves the blocks it does not meet alone. */
  lemma OutsideKeeps(live: set<Block>, g: Block, p: nat, len: nat, b0: Bytes, b1: Bytes)
    requires p == g.addr + META && len <= g.size
    requires forall b :: b in live ==> End(b) <= g.addr || End(g) <= b.addr
    requires SameOutside(b0, b1, p, p + len)
    ensures Kept(live, b0, b1)
  {
  }

  /** What `malloc` (`b0 -> b1`) and the copy (`b1 -> b2`) do to the bytes. */
  lemma CopyMoves(live: set<Block>, mine: Block, p: nat, r: nat, size: nat, b0: Bytes, b1: Bytes, b2: Bytes)
    requires mine in live && p == mine.addr + META && size == mine.size
    requires Kept(live, b0, b1) && Kept(live, b1, b2) && Moved(b1, p, b2, r, size)
    ensures Moved(b0, p, b2, r, size) && Kept(live, b0, b2)
  {
    forall j: nat | j < size ensures MovedAt(b0, p, b2, r, j) {
      assert SameAt(b0, b1, p + j);
      assert MovedAt(b1, p, b2, r, j);
    }
    KeptTransitive(live, b0, b1, b2);
  }

  /** The `free` at the end (`b1 -> b2`) leaves the granted block `g` as it is. */
  lemma ReallocMoves(h: Heap, h1: Heap, g: Block, p: nat, r: nat, size: nat, b0: Bytes, b1: Bytes, b2: Bytes)
    requires Live(h1.blocks) == Live(h.blocks) + {g} && r == g.addr + META && size <= g.size
    requires Moved(b0, p, b1, r, size) && Kept(Live(h.blocks), b0, b1) && Kept(Live(h1.blocks), b1, b2)
    ensures Moved(b0, p, b2, r, size)
    ensures Kept(Live(h.blocks), b0, b2)
  {
    forall j: nat | j < size ensures MovedAt(b0, p, b2, r, j) {
      assert MovedAt(b0, p, b1, r, j);
      assert SameAt(b1, b2, r + j);
    }
    KeptTransitive(Live(h.blocks), b0, b1, b2);
  }
}
