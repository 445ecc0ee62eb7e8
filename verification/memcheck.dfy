/** The ledger of `mini_memcheck/mini_memcheck.c`: a singly linked list of the live
    blocks, with running totals. */
module MiniMemcheck {
  import opened Arithmetic
  import opened ByteValues
  import opened Options

  /** A block: the header the ledger links, and the bytes behind it. A program's
      pointer to those bytes is `At` of the block; it may change them. */
  class MetaData {
    var requestSize: nat
    var next: MetaData?
    var payload: seq<Byte>

    constructor (size: nat, rest: MetaData?, bytes: seq<Byte>)
      ensures requestSize == size && next == rest && payload == bytes
    {
      requestSize, next, payload := size, rest, bytes;
    }

    /** The underlying realloc, when it succeeds. */
    method Reallocate(size: nat, moves: bool) returns (moved: MetaData)
      modifies `payload
      ensures if moves then fresh(moved) else moved == this
      ensures moved.requestSize == requestSize && moved.next == next
      ensures |moved.payload| == size && Carried(old(payload), moved.payload)
    {
      moved := this;
      if moves {
        moved := new MetaData(requestSize, next, payload);
      }
      var tail := Unwritten(size);
      var kept := Min(|moved.payload|, size);
      moved.payload := moved.payload[..kept] + tail[kept..];
    }

    predicate Whole()
      reads `payload, `requestSize
    {
      |payload| == requestSize
    }
  }

  /** Bytes that nobody has written. */
  method Unwritten(n: nat) returns (bytes: seq<Byte>)
    ensures |bytes| == n
  {
    bytes := *;
    if |bytes| != n { bytes := seq(n, _ => 0); }
  }

  /** What a program may pass in: NULL, a block (live or not), or any other address. */
  datatype Pointer = Null | At(m: MetaData) | Wild

  function Sum(sizes: seq<nat>): nat {
    if sizes == [] then 0 else sizes[0] + Sum(sizes[1..])
  }

  lemma {:induction false} SumSplit(a: seq<nat>, x: nat, b: seq<nat>)
    ensures Sum(a + [x] + b) == Sum(a) + x + Sum(b)
  {
    if a == [] {
      assert a + [x] + b == [x] + b;
    } else {
      SumSplit(a[1..], x, b);
      assert (a + [x] + b)[1..] == a[1..] + [x] + b;
    }
  }

  lemma SplitAt<T>(s: seq<T>, i: nat)
    requires i < |s|
    ensures s == s[..i] + [s[i]] + s[i + 1..]
  {
  }

  lemma {:induction false} SumJoin(a: seq<nat>, b: seq<nat>)
    ensures Sum(a + b) == Sum(a) + Sum(b)
  {
    if a == [] {
      assert a + b == b;
    } else {
      SumJoin(a[1..], b);
      assert (a + b)[1..] == a[1..] + b;
    }
  }

  /** The bytes that fit both blocks are the same. */
  predicate Carried(before: seq<Byte>, after: seq<Byte>) {
    var kept := Min(|before|, |after|);
    after[..kept] == before[..kept]
  }

  class Ledger {
    var head: MetaData?
    var totalMemoryRequested: nat
    var totalMemoryFreed: nat
    var invalidAddresses: nat
    /** The live blocks, newest first except where one was moved by a realloc. */
    ghost var blocks: seq<MetaData>
    /** Their request sizes. */
    ghost var sizes: seq<nat>

    ghost predicate Linked()
      reads `head, `blocks, blocks`next
    {
      && head == From(blocks, 0)
      && (forall i {:trigger blocks[i].next} :: 0 <= i < |blocks| ==> blocks[i].next == From(blocks, i + 1))
      && (forall i, j :: 0 <= i < j < |blocks| ==> blocks[i] != blocks[j])
    }

    static ghost function From(bs: seq<MetaData>, i: nat): MetaData? {
      if i < |bs| then bs[i] else null
    }

    ghost predicate Sized()
      reads `sizes, `blocks, blocks`requestSize
    {
      && |sizes| == |blocks|
      && forall i {:trigger blocks[i].requestSize} {:trigger sizes[i]} ::
        0 <= i < |blocks| ==> blocks[i].requestSize == sizes[i]
    }

    /** What is requested and not freed is what the live blocks asked for. */
    ghost predicate Valid()
      reads `head, `blocks, `sizes, `totalMemoryRequested, `totalMemoryFreed, blocks
    {
      Linked() && Sized() && totalMemoryRequested == totalMemoryFreed + Sum(sizes)
    }

    constructor ()
      ensures Valid() && blocks == [] && totalMemoryRequested == totalMemoryFreed == invalidAddresses == 0
    {
      head, blocks, sizes, totalMemoryRequested, totalMemoryFreed, invalidAddresses := null, [], [], 0, 0, 0;
    }

    /** `mini_malloc`; `fits` is whether the underlying malloc succeeds. */
    method Malloc(requestSize: nat, fits: bool) returns (p: Pointer)
      requires Valid()
      modifies this
      ensures Valid() && invalidAddresses == old(invalidAddresses) && totalMemoryFreed == old(totalMemoryFreed)
      ensures p.Null? <==> requestSize == 0 || !fits
      ensures p.Null? ==> blocks == old(blocks) && totalMemoryRequested == old(totalMemoryRequested)
      ensures !p.Null? ==>
        && p.At? && fresh(p.m) && p.m.requestSize == requestSize && p.m.Whole()
        && blocks == [p.m] + old(blocks) && totalMemoryRequested == old(totalMemoryRequested) + requestSize
    {
      if requestSize == 0 || !fits {
        return Null;
      }
      var bytes := Unwritten(requestSize);
      var tmp := new MetaData(requestSize, head, bytes);
      head := tmp;
      blocks, sizes := [tmp] + blocks, [requestSize] + sizes;
      totalMemoryRequested := totalMemoryRequested + requestSize;
      assert ([requestSize] + old(sizes))[1..] == old(sizes);
      p := At(tmp);
    }

    /** `mini_calloc`; the size is the product. */
    method Calloc(numElements: nat, elementSize: nat, fits: bool) returns (p: Pointer)
      requires Valid()
      modifies this
      ensures Valid() && invalidAddresses == old(invalidAddresses) && totalMemoryFreed == old(totalMemoryFreed)
      ensures p.Null? <==> numElements == 0 || elementSize == 0 || !fits
      ensures p.Null? ==> blocks == old(blocks) && totalMemoryRequested == old(totalMemoryRequested)
      ensures !p.Null? ==>
        && p.At? && fresh(p.m) && p.m.requestSize == numElements * elementSize
        && p.m.payload == seq(numElements * elementSize, _ => 0)
        && blocks == [p.m] + old(blocks)
        && totalMemoryRequested == old(totalMemoryRequested) + numElements * elementSize
    {
      if numElements == 0 || elementSize == 0 {
        return Null;
      }
      var n := numElements * elementSize;
      assert n > 0;
      p := Malloc(n, fits);
      if !p.Null? {
        p.m.payload := seq(n, _ => 0);
      }
    }

    /** The cursor loop of free and realloc: the block and the one before it. */
    method Find(p: Pointer) returns (found: MetaData?, prev: MetaData?, ghost i: nat)
      requires Valid()
      ensures i <= |blocks| && found == From(blocks, i)
      ensures prev == if i == 0 then null else blocks[i - 1]
      ensures found != null <==> p.At? && p.m in blocks
      ensures found != null ==> p == At(found) && i < |blocks|
    {
      found, prev, i := head, null, 0;
      while found != null && p != At(found)
        invariant i <= |blocks| && found == From(blocks, i) && prev == if i == 0 then null else blocks[i - 1]
        invariant forall j :: 0 <= j < i ==> p != At(blocks[j])
        decreases |blocks| - i
      {
        prev := found;
        found := found.next;
        i := i + 1;
      }
    }

    method Unlink(current: MetaData, prev: MetaData?, ghost i: nat)
      requires Linked() && i < |blocks| && current == blocks[i] && prev == if i == 0 then null else blocks[i - 1]
      modifies `head, `blocks, blocks`next
      ensures Linked() && blocks == old(blocks)[..i] + old(blocks)[i + 1..]
    {
      var rest := current.next;
      if prev != null {
        prev.next := rest;
      } else {
        head := rest;
      }
      blocks := blocks[..i] + blocks[i + 1..];
    }

    /** `mini_free` */
    method Free(p: Pointer) returns (ghost i: nat)
      requires Valid()
      modifies this, blocks`next
      ensures Valid() && totalMemoryRequested == old(totalMemoryRequested)
      ensures forall m :: m in old(blocks) ==> unchanged(m`requestSize, m`payload)
      ensures p.At? && p.m in old(blocks) ==>
        && i < |old(blocks)| && old(blocks)[i] == p.m && blocks == old(blocks)[..i] + old(blocks)[i + 1..]
        && totalMemoryFreed == old(totalMemoryFreed) + p.m.requestSize && invalidAddresses == old(invalidAddresses)
      ensures !(p.At? && p.m in old(blocks)) ==>
        && blocks == old(blocks) && totalMemoryFreed == old(totalMemoryFreed)
        && invalidAddresses == old(invalidAddresses) + if p.Null? then 0 else 1
    {
      i := 0;
      if p.Null? {
        return;
      }
      var current, prev;
      current, prev, i := Find(p);
      if current == null {
        invalidAddresses := invalidAddresses + 1;
        return;
      }
      Unlink(current, prev, i);
      totalMemoryFreed := totalMemoryFreed + current.requestSize;
      Removed(sizes, i);
      sizes := sizes[..i] + sizes[i + 1..];
    }

    static lemma Removed(s: seq<nat>, i: nat)
      requires i < |s|
      ensures Sum(s[..i] + s[i + 1..]) + s[i] == Sum(s)
    {
      SplitAt(s, i);
      SumSplit(s[..i], s[i], s[i + 1..]);
      SumJoin(s[..i], s[i + 1..]);
    }

    /** A block that stayed or moved is linked in the old one's place. */
    method Relink(moved: MetaData, prev: MetaData?, ghost i: nat)
      requires Linked() && i < |blocks| && prev == if i == 0 then null else blocks[i - 1]
      requires moved == blocks[i] || (moved !in blocks && moved.next == blocks[i].next)
      modifies `head, `blocks, blocks`next
      ensures Linked() && blocks == old(blocks)[i := moved]
    {
      if prev == null {
        head := moved;
      } else {
        prev.next := moved;
      }
      blocks := blocks[i := moved];
    }

    static lemma Replaced(s: seq<nat>, i: nat, x: nat)
      requires i < |s|
      ensures Sum(s[i := x]) + s[i] == Sum(s) + x
    {
      SumSplit(s[..i], s[i], s[i + 1..]);
      SumSplit(s[..i], x, s[i + 1..]);
      assert s == s[..i] + [s[i]] + s[i + 1..];
      assert s[i := x] == s[..i] + [x] + s[i + 1..];
    }

    method Recount(before: nat, after: nat)
      modifies `totalMemoryRequested, `totalMemoryFreed
      ensures totalMemoryRequested == old(totalMemoryRequested) + if before < after then after - before else 0
      ensures totalMemoryFreed == old(totalMemoryFreed) + if before > after then before - after else 0
    {
      if before < after {
        totalMemoryRequested := totalMemoryRequested + (after - before);
      }
      if before > after {
        totalMemoryFreed := totalMemoryFreed + (before - after);
      }
    }

    /** What realloc does to a block it found. */
    method Resize(requestSize: nat, moves: bool, found: MetaData, prev: MetaData?, ghost i: nat) returns (r: Pointer)
      requires Valid() && i < |blocks| && found == blocks[i] && prev == if i == 0 then null else blocks[i - 1]
      modifies `head, `blocks, `sizes, `totalMemoryRequested, `totalMemoryFreed
      modifies found`requestSize, found`payload, blocks`next
      ensures Valid()
      ensures forall m :: m in old(blocks) && m != found ==> unchanged(m`requestSize, m`payload)
      ensures r.At? && blocks == old(blocks)[i := r.m] && (if moves then fresh(r.m) else r.m == found)
      ensures sizes == old(sizes)[i := requestSize]
      ensures r.m.Whole() && Carried(old(found.payload), r.m.payload)
      ensures old(found.requestSize) <= requestSize ==>
        && totalMemoryRequested == old(totalMemoryRequested) + (requestSize - old(found.requestSize))
        && totalMemoryFreed == old(totalMemoryFreed)
      ensures old(found.requestSize) >= requestSize ==>
        && totalMemoryRequested == old(totalMemoryRequested)
        && totalMemoryFreed == old(totalMemoryFreed) + (old(found.requestSize) - requestSize)
    {
      var moved := found.Reallocate(requestSize, moves);
      Relink(moved, prev, i);
      Recount(moved.requestSize, requestSize);
      moved.requestSize := requestSize;
      Replaced(sizes, i, requestSize);
      sizes := sizes[i := requestSize];
      r := At(moved);
    }

    /** `mini_realloc`; the underlying realloc may fail, stay in place or move. */
    method Realloc(p: Pointer, requestSize: nat, fits: bool, moves: bool) returns (r: Pointer, ghost i: nat)
      requires Valid()
      modifies this, blocks
      ensures Valid()
      ensures forall m :: m in old(blocks) && (p == At(m) ==> requestSize == 0 || !fits) ==>
        unchanged(m`requestSize, m`payload)
      ensures p.Null? ==> totalMemoryFreed == old(totalMemoryFreed) && invalidAddresses == old(invalidAddresses)
      ensures p.Null? && (requestSize == 0 || !fits) ==>
        r == Null && blocks == old(blocks) && totalMemoryRequested == old(totalMemoryRequested)
      ensures p.Null? && requestSize > 0 && fits ==>
        && r.At? && fresh(r.m) && r.m.requestSize == requestSize && blocks == [r.m] + old(blocks)
        && totalMemoryRequested == old(totalMemoryRequested) + requestSize
      ensures !p.Null? && !(p.At? && p.m in old(blocks)) ==>
        && r == Null && blocks == old(blocks) && invalidAddresses == old(invalidAddresses) + 1
        && totalMemoryRequested == old(totalMemoryRequested) && totalMemoryFreed == old(totalMemoryFreed)
      ensures p.At? && p.m in old(blocks) ==>
        i < |old(blocks)| && old(blocks)[i] == p.m && invalidAddresses == old(invalidAddresses)
      ensures p.At? && p.m in old(blocks) && requestSize == 0 ==>
        && r == Null && blocks == old(blocks)[..i] + old(blocks)[i + 1..]
        && totalMemoryRequested == old(totalMemoryRequested)
        && totalMemoryFreed == old(totalMemoryFreed) + old(p.m.requestSize)
      ensures p.At? && p.m in old(blocks) && requestSize > 0 && !fits ==>
        && r == Null && blocks == old(blocks)
        && totalMemoryRequested == old(totalMemoryRequested) && totalMemoryFreed == old(totalMemoryFreed)
      ensures p.At? && p.m in old(blocks) && requestSize > 0 && fits ==>
        && r.At? && blocks == old(blocks)[i := r.m] && (if moves then fresh(r.m) else r.m == p.m)
        && sizes == old(sizes)[i := requestSize]
        && r.m.Whole() && Carried(old(p.m.payload), r.m.payload)
      ensures p.At? && p.m in old(blocks) && requestSize > 0 && fits && requestSize >= old(p.m.requestSize) ==>
        && totalMemoryRequested == old(totalMemoryRequested) + (requestSize - old(p.m.requestSize))
        && totalMemoryFreed == old(totalMemoryFreed)
      ensures p.At? && p.m in old(blocks) && requestSize > 0 && fits && requestSize <= old(p.m.requestSize) ==>
        && totalMemoryRequested == old(totalMemoryRequested)
        && totalMemoryFreed == old(totalMemoryFreed) + (old(p.m.requestSize) - requestSize)
    {
      if p.Null? {
        i := 0;
        r := Malloc(requestSize, fits);
        return;
      }
      if requestSize == 0 {
        i := Free(p);
        return Null, i;
      }
      var found, prev;
      found, prev, i := Find(p);
      r := Null;
      if found == null {
        invalidAddresses := invalidAddresses + 1;
        return;
      }
      if !fits {
        return;
      }
      r := Resize(requestSize, moves, found, prev, i);
    }
  }
}
