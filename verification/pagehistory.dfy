/** What the processes have written, and the relations between memories that the MMU
    and the kernel keep: `ideal_indirection/mmu.c`. */
module PageHistory {
  import opened ByteValues
  import opened Options
  import opened PageMemory

  /** The shifts and masks of the source, as arithmetic. */
  function PageOfAddress(va: nat): nat {
    va / PAGE_SIZE
  }

  function Offset(va: nat): nat {
    va % PAGE_SIZE
  }

  lemma AddressIndices(va: nat)
    ensures DirIndex(PageOfAddress(va)) == va / 0x100000
    ensures TableIndex(PageOfAddress(va)) == va % 0x400000 / PAGE_SIZE
    ensures va == PageOfAddress(va) * PAGE_SIZE + Offset(va)
  {
    var v, r := PageOfAddress(va), Offset(va);
    RemainderOfSum(v / NUM_ENTRIES, v % NUM_ENTRIES * PAGE_SIZE + r);
    QuotientOfSum(v % NUM_ENTRIES, r);
  }

  lemma RemainderOfSum(q: nat, r: nat)
    requires r < 0x400000
    ensures (q * 0x400000 + r) % 0x400000 == r
  {
  }

  lemma QuotientOfSum(q: nat, r: nat)
    requires r < PAGE_SIZE
    ensures (q * PAGE_SIZE + r) / PAGE_SIZE == q
  {
  }

  // ---- what has been written ----

  datatype Act = Created(pid: nat) | Wrote(pid: nat, va: nat, bytes: seq<Byte>)

  /** The byte process `pid` last wrote at `a`, or 0 if it has not since it was created. */
  function LastByte(h: seq<Act>, pid: nat, a: nat): Byte {
    if h == [] then 0
    else match h[|h| - 1] {
      case Created(p) => if p == pid then 0 else LastByte(h[..|h| - 1], pid, a)
      case Wrote(p, va, bytes) =>
        if p == pid && va <= a < va + |bytes| then bytes[a - va] else LastByte(h[..|h| - 1], pid, a)
    }
  }

  /** The event says what process `pid` sees at `a`. */
  predicate Touches(e: Act, pid: nat, a: nat) {
    match e
    case Created(p) => p == pid
    case Wrote(p, va, bytes) => p == pid && va <= a < va + |bytes|
  }

  /** The last event that touches an address decides: a write gives its byte there, a
      creation 0. */
  lemma {:induction false} LastByteMeans(h: seq<Act>, pid: nat, a: nat, i: nat)
    requires i < |h| && Touches(h[i], pid, a)
    requires forall j :: i < j < |h| ==> !Touches(h[j], pid, a)
    ensures LastByte(h, pid, a) == if h[i].Created? then 0 else h[i].bytes[a - h[i].va]
  {
    if i < |h| - 1 {
      assert !Touches(h[|h| - 1], pid, a);
      LastByteMeans(h[..|h| - 1], pid, a, i);
    }
  }

  lemma {:induction false} UntouchedIsZero(h: seq<Act>, pid: nat, a: nat)
    requires forall i :: 0 <= i < |h| ==> !Touches(h[i], pid, a)
    ensures LastByte(h, pid, a) == 0
  {
    if h != [] {
      assert !Touches(h[|h| - 1], pid, a);
      UntouchedIsZero(h[..|h| - 1], pid, a);
    }
  }

  ghost predicate Remembers(m: Memory, h: seq<Act>)
    requires WellFormed(m)
  {
    forall p, v {:trigger RemembersPage(m, h, p, v)} :: p in m.dirs && 0 <= v < PAGES ==> RemembersPage(m, h, p, v)
  }

  ghost predicate RemembersPage(m: Memory, h: seq<Act>, p: nat, v: nat)
    requires WellFormed(m) && p in m.dirs && v < PAGES
  {
    && |View(m, p, v)| == PAGE_SIZE
    && forall k :: 0 <= k < PAGE_SIZE ==> View(m, p, v)[k] == LastByte(h, p, v * PAGE_SIZE + k)
  }

  function Overwrite(page: seq<Byte>, off: nat, bytes: seq<Byte>): seq<Byte>
    requires off + |bytes| <= |page|
  {
    page[..off] + bytes + page[off + |bytes|..]
  }

  lemma WriteRemembered(m: Memory, n: Memory, h: seq<Act>, pid: nat, va: nat, bytes: seq<Byte>)
    requires WellFormed(m) && WellFormed(n) && m.dirs == n.dirs && Remembers(m, h)
    requires pid in m.dirs && PageOfAddress(va) < PAGES && Offset(va) + |bytes| <= PAGE_SIZE
    requires |View(m, pid, PageOfAddress(va))| == PAGE_SIZE
    requires forall p, v :: p in m.dirs && 0 <= v < PAGES ==>
      (View(n, p, v) ==
       (if p == pid && v == PageOfAddress(va) then Overwrite(View(m, p, v), Offset(va), bytes) else View(m, p, v)))
    ensures Remembers(n, h + [Wrote(pid, va, bytes)])
  {
    var h' := h + [Wrote(pid, va, bytes)];
    assert h'[..|h|] == h;
    AddressIndices(va);
    forall p, v | p in n.dirs && 0 <= v < PAGES ensures RemembersPage(n, h', p, v) {
      assert RemembersPage(m, h, p, v);
      forall k | 0 <= k < PAGE_SIZE ensures View(n, p, v)[k] == LastByte(h', p, v * PAGE_SIZE + k) {
        assert View(m, p, v)[k] == LastByte(h, p, v * PAGE_SIZE + k);
      }
    }
  }

  lemma CreationRemembered(m: Memory, n: Memory, h: seq<Act>, pid: nat)
    requires WellFormed(m) && WellFormed(n) && n.dirs.Keys == m.dirs.Keys + {pid} && Remembers(m, h)
    requires forall p, v :: p in n.dirs && 0 <= v < PAGES ==>
      (View(n, p, v) == if p == pid then ZeroPage() else View(m, p, v))
    ensures Remembers(n, h + [Created(pid)])
  {
    var h' := h + [Created(pid)];
    assert h'[..|h|] == h;
    forall p, v | p in n.dirs && 0 <= v < PAGES ensures RemembersPage(n, h', p, v) {
      if p != pid { assert RemembersPage(m, h, p, v); }
    }
  }

  // ---- what a translation step or an eviction may do ----

  ghost function WalkOf(m: Memory, p: nat, v: nat): Option<Loc>
    requires WellFormed(m) && p in m.dirs && v < PAGES
  {
    WalkIsGood(m, p, v);
    Walk(m, p, v)
  }

  /** Every cached translation is the one a walk would find. */
  ghost predicate Coherent(m: Memory, tlb: map<nat, Loc>, pid: nat)
    requires WellFormed(m)
  {
    forall v :: v in tlb ==> v < PAGES && pid in m.dirs && WalkOf(m, pid, v) == Some(tlb[v])
  }

  /** Every cached translation is the one a walk would find, or leads into a lost table:
      what a TLB may hold once the current process has been added anew. */
  ghost predicate Mixed(m: Memory, tlb: map<nat, Loc>, pid: nat)
    requires WellFormed(m)
  {
    forall v :: v in tlb ==> v < PAGES && MixedAt(m, tlb[v], pid, v)
  }

  ghost predicate MixedAt(m: Memory, loc: Loc, pid: nat, v: nat)
    requires WellFormed(m) && v < PAGES
  {
    IsLost(m, loc.table) || (pid in m.dirs && WalkOf(m, pid, v) == Some(loc))
  }

  /** The entry cached for page `v`, if any, does not lead into a lost table. */
  predicate Usable(m: Memory, tlb: map<nat, Loc>, v: nat) {
    v in tlb ==> !IsLost(m, tlb[v].table)
  }

  lemma WalksAreNotLost(m: Memory, p: nat, v: nat)
    requires WellFormed(m) && p in m.dirs && v < PAGES
    ensures WalkOf(m, p, v).Some? ==> !IsLost(m, WalkOf(m, p, v).value.table)
  {
    WalkIsGood(m, p, v);
  }

  lemma CoherentIffUsable(m: Memory, tlb: map<nat, Loc>, pid: nat)
    requires WellFormed(m)
    ensures Coherent(m, tlb, pid) <==> Mixed(m, tlb, pid) && forall v :: Usable(m, tlb, v)
  {
    if Coherent(m, tlb, pid) {
      forall v ensures Usable(m, tlb, v) { if v in tlb { WalksAreNotLost(m, pid, v); } }
    }
    if Mixed(m, tlb, pid) && forall v :: Usable(m, tlb, v) {
      forall v | v in tlb ensures v < PAGES && pid in m.dirs && WalkOf(m, pid, v) == Some(tlb[v]) {
        assert Usable(m, tlb, v);
      }
    }
  }

  /** Memory is in order and every byte is the last one written. */
  ghost predicate Sound(m: Memory, h: seq<Act>) {
    WellFormed(m) && Remembers(m, h)
  }

  ghost predicate KeepsLost(m: Memory, n: Memory) {
    forall f {:trigger IsLost(n, f)} :: IsLost(m, f) ==> IsLost(n, f)
  }

  ghost predicate SameLost(m: Memory, n: Memory) {
    forall f {:trigger IsLost(n, f)} {:trigger IsLost(m, f)} :: IsLost(m, f) <==> IsLost(n, f)
  }

  /** `n` shows every page as `m` does and keeps every entry where it was. */
  ghost predicate Follows(m: Memory, n: Memory)
    requires WellFormed(m) && WellFormed(n)
  {
    && m.dirs.Keys == n.dirs.Keys && SameLost(m, n)
    && forall p, v {:trigger FollowsAt(m, n, p, v)} :: p in m.dirs && 0 <= v < PAGES ==> FollowsAt(m, n, p, v)
  }

  ghost predicate FollowsAt(m: Memory, n: Memory, p: nat, v: nat)
    requires WellFormed(m) && WellFormed(n) && p in m.dirs && p in n.dirs && v < PAGES
  {
    View(n, p, v) == View(m, p, v) && (WalkOf(m, p, v).Some? ==> WalkOf(n, p, v) == WalkOf(m, p, v))
  }

  /** `n` is `m` after some evictions: all walks and views are the same, and what was
      not in memory still is not. */
  ghost predicate Thins(m: Memory, n: Memory)
    requires WellFormed(m) && WellFormed(n)
  {
    && m.dirs == n.dirs && SameLost(m, n)
    && (forall p, v {:trigger ThinsAt(m, n, p, v)} :: p in m.dirs && 0 <= v < PAGES ==> ThinsAt(m, n, p, v))
    && (forall l {:trigger Absent(n, l)} :: Absent(m, l) ==> Absent(n, l))
  }

  ghost predicate ThinsAt(m: Memory, n: Memory, p: nat, v: nat)
    requires WellFormed(m) && WellFormed(n) && p in m.dirs && p in n.dirs && v < PAGES
  {
    View(n, p, v) == View(m, p, v) && WalkOf(n, p, v) == WalkOf(m, p, v)
  }

  /** Of the pages in memory at most those in `evicted` are gone. */
  ghost predicate KeepsPresent(m: Memory, n: Memory, evicted: set<Loc>) {
    forall l {:trigger Present(n, l)} :: Present(m, l) && l !in evicted ==> Present(n, l)
  }

  lemma FollowsSound(m: Memory, n: Memory, h: seq<Act>)
    requires Sound(m, h) && WellFormed(n) && Follows(m, n)
    ensures Sound(n, h)
  {
    forall p, v | p in n.dirs && 0 <= v < PAGES ensures RemembersPage(n, h, p, v) {
      assert RemembersPage(m, h, p, v) && FollowsAt(m, n, p, v);
    }
  }

  lemma FollowsMixed(m: Memory, n: Memory, tlb: map<nat, Loc>, pid: nat)
    requires WellFormed(m) && WellFormed(n) && Follows(m, n) && Mixed(m, tlb, pid)
    ensures Mixed(n, tlb, pid) && (Coherent(m, tlb, pid) <==> Coherent(n, tlb, pid))
    ensures forall v :: Usable(m, tlb, v) <==> Usable(n, tlb, v)
  {
    forall v | v in tlb ensures MixedAt(n, tlb[v], pid, v) {
      assert MixedAt(m, tlb[v], pid, v) && (pid in m.dirs ==> FollowsAt(m, n, pid, v));
    }
    CoherentIffUsable(m, tlb, pid);
    CoherentIffUsable(n, tlb, pid);
    forall v ensures Usable(m, tlb, v) <==> Usable(n, tlb, v) {
      assert v in tlb ==> (IsLost(m, tlb[v].table) <==> IsLost(n, tlb[v].table));
    }
  }

  lemma FollowsReflexive(m: Memory)
    requires WellFormed(m)
    ensures Follows(m, m) && Thins(m, m)
  {
  }

  lemma FollowsTransitive(m: Memory, n: Memory, o: Memory)
    requires WellFormed(m) && WellFormed(n) && WellFormed(o) && Follows(m, n) && Follows(n, o)
    ensures Follows(m, o)
  {
    forall p, v | p in m.dirs && 0 <= v < PAGES ensures FollowsAt(m, o, p, v) {
      assert FollowsAt(m, n, p, v) && FollowsAt(n, o, p, v);
    }
    forall f ensures IsLost(m, f) <==> IsLost(o, f) { assert IsLost(m, f) <==> IsLost(n, f); }
  }

  lemma ThinsTransitive(m: Memory, n: Memory, o: Memory)
    requires WellFormed(m) && WellFormed(n) && WellFormed(o) && Thins(m, n) && Thins(n, o)
    ensures Thins(m, o)
  {
    forall p, v | p in m.dirs && 0 <= v < PAGES ensures ThinsAt(m, o, p, v) {
      assert ThinsAt(m, n, p, v) && ThinsAt(n, o, p, v);
    }
    forall f ensures IsLost(m, f) <==> IsLost(o, f) { assert IsLost(m, f) <==> IsLost(n, f); }
    forall l | Absent(m, l) ensures Absent(o, l) { assert Absent(n, l); }
  }

  lemma ThinsFollows(m: Memory, n: Memory)
    requires WellFormed(m) && WellFormed(n) && Thins(m, n)
    ensures Follows(m, n)
  {
    forall p, v | p in m.dirs && 0 <= v < PAGES ensures FollowsAt(m, n, p, v) { assert ThinsAt(m, n, p, v); }
  }

  lemma EvictedThins(m: Memory, loc: Loc)
    requires WellFormed(m) && Present(m, loc)
    ensures WellFormed(Evicted(m, loc)) && Thins(m, Evicted(m, loc)) && Absent(Evicted(m, loc), loc)
    ensures KeepsPresent(m, Evicted(m, loc), {loc})
  {
    var n := Evicted(m, loc);
    EvictedKeeps(m, loc);
    forall p, v | p in m.dirs && 0 <= v < PAGES ensures ThinsAt(m, n, p, v) {
      EvictedView(m, loc, p, v);
    }
    EvictedElsewhere(m, loc);
  }

  lemma EvictedElsewhere(m: Memory, loc: Loc)
    requires WellFormed(m) && Present(m, loc)
    ensures SameLost(m, Evicted(m, loc)) && KeepsPresent(m, Evicted(m, loc), {loc})
    ensures forall l {:trigger Absent(Evicted(m, loc), l)} :: Absent(m, l) ==> Absent(Evicted(m, loc), l)
  {
    assert GoodTable(m, loc.table);
    forall l | Present(m, l) && l != loc ensures Present(Evicted(m, loc), l) { assert GoodTable(m, l.table); }
  }

  lemma WithTableFollows(m: Memory, p: nat, v: nat, f: nat)
    requires WellFormed(m) && p in m.dirs && v < PAGES && f !in m.frames && WalkOf(m, p, v).None?
    ensures IsTable(m, m.dirs[p]) && WellFormed(WithTable(m, p, DirIndex(v), f))
    ensures Follows(m, WithTable(m, p, DirIndex(v), f))
    ensures WalkOf(WithTable(m, p, DirIndex(v), f), p, v) == Some(Loc(f, TableIndex(v)))
    ensures forall i: nat :: i < NUM_ENTRIES ==> Absent(WithTable(m, p, DirIndex(v), f), Loc(f, i))
  {
    var d := DirIndex(v);
    WalkIsGood(m, p, v);
    WithTableKeeps(m, p, d, f);
    forall q, w | q in m.dirs && 0 <= w < PAGES ensures FollowsAt(m, WithTable(m, p, d, f), q, w) {
      WithTableView(m, p, d, f, q, w);
    }
    WithTableWalk(m, p, d, f, p, v);
  }

  lemma WithPageFollows(m: Memory, loc: Loc, f: nat)
    requires WellFormed(m) && Absent(m, loc) && f !in m.frames
    ensures WellFormed(WithPage(m, loc, f)) && Follows(m, WithPage(m, loc, f)) && Present(WithPage(m, loc, f), loc)
    ensures KeepsPresent(m, WithPage(m, loc, f), {})
    ensures forall l {:trigger Absent(WithPage(m, loc, f), l)} ::
      Absent(m, l) && l != loc ==> Absent(WithPage(m, loc, f), l)
  {
    WithPageKeeps(m, loc, f);
    forall q, v | q in m.dirs && 0 <= v < PAGES ensures FollowsAt(m, WithPage(m, loc, f), q, v) {
      WithPageView(m, loc, f, q, v);
    }
  }

  /** The page faults an access to page `v` raises: one for a missing table, whose
      entries are then all absent, and one for an absent page. */
  ghost function Faults(m: Memory, p: nat, v: nat): nat
    requires WellFormed(m) && p in m.dirs && v < PAGES
  {
    match WalkOf(m, p, v)
    case None => 2
    case Some(loc) => if Absent(m, loc) then 1 else 0
  }

  /** In entries: 2 without a table, 1 with an absent page, and otherwise none. */
  lemma FaultsMean(m: Memory, p: nat, v: nat)
    requires WellFormed(m) && p in m.dirs && v < PAGES
    ensures IsTable(m, m.dirs[p]) && v / 256 < NUM_ENTRIES
    ensures var pde := m.frames[m.dirs[p]].entries[v / 256];
      && (!pde.present ==> Faults(m, p, v) == 2)
      && (pde.present ==>
            IsTable(m, pde.base) && Faults(m, p, v) == if m.frames[pde.base].entries[v % 1024].present then 0 else 1)
  {
    WalkIsGood(m, p, v);
  }

  /** The bytes of one access, written into the page it lies on. */
  function Store(m: Memory, loc: Loc, off: nat, bytes: seq<Byte>): Memory
    requires IsTable(m, loc.table) && loc.index < NUM_ENTRIES && IsPage(m, m.frames[loc.table].entries[loc.index].base)
    requires off + |bytes| <= PAGE_SIZE
  {
    var f := m.frames[loc.table].entries[loc.index].base;
    WithBytes(m, f, Overwrite(m.frames[f].bytes, off, bytes))
  }

  /** `n` differs from `m` only in the bytes process `pid` sees from `va` on. */
  ghost predicate OnlyWrites(m: Memory, n: Memory, pid: nat, va: nat, bytes: seq<Byte>)
    requires WellFormed(m) && WellFormed(n) && PageOfAddress(va) < PAGES && Offset(va) + |bytes| <= PAGE_SIZE
  {
    && m.dirs == n.dirs && SameLost(m, n)
    && forall p, v {:trigger WroteAt(m, n, pid, va, bytes, p, v)} ::
      p in m.dirs && 0 <= v < PAGES ==> WroteAt(m, n, pid, va, bytes, p, v)
  }

  ghost predicate WroteAt(m: Memory, n: Memory, pid: nat, va: nat, bytes: seq<Byte>, p: nat, v: nat)
    requires WellFormed(m) && WellFormed(n) && p in m.dirs && p in n.dirs
    requires v < PAGES && Offset(va) + |bytes| <= PAGE_SIZE
  {
    && |View(m, p, v)| == PAGE_SIZE
    && View(n, p, v) ==
       (if p == pid && v == PageOfAddress(va) then Overwrite(View(m, p, v), Offset(va), bytes) else View(m, p, v))
    && WalkOf(n, p, v) == WalkOf(m, p, v)
  }

  lemma ViewLength(m: Memory, p: nat, v: nat)
    requires WellFormed(m) && p in m.dirs && v < PAGES
    ensures |View(m, p, v)| == PAGE_SIZE
  {
    WalkIsGood(m, p, v);
    if Walk(m, p, v).Some? { LocIsGood(m, Walk(m, p, v).value); }
  }

  lemma StoreWrites(m: Memory, pid: nat, va: nat, bytes: seq<Byte>, loc: Loc)
    requires WellFormed(m) && pid in m.dirs && PageOfAddress(va) < PAGES && Offset(va) + |bytes| <= PAGE_SIZE
    requires WalkOf(m, pid, PageOfAddress(va)) == Some(loc) && Present(m, loc)
    ensures WellFormed(Store(m, loc, Offset(va), bytes))
    ensures OnlyWrites(m, Store(m, loc, Offset(va), bytes), pid, va, bytes)
  {
    var f := m.frames[loc.table].entries[loc.index].base;
    var page := Overwrite(m.frames[f].bytes, Offset(va), bytes);
    var n := Store(m, loc, Offset(va), bytes);
    WithBytesKeeps(m, f, page);
    WalkIsGood(m, pid, PageOfAddress(va));
    forall p, v | p in m.dirs && 0 <= v < PAGES ensures WroteAt(m, n, pid, va, bytes, p, v) {
      ViewLength(m, p, v);
      WithBytesView(m, pid, PageOfAddress(va), page, p, v);
    }
  }

  lemma StoreSound(m: Memory, n: Memory, pid: nat, va: nat, bytes: seq<Byte>, h: seq<Act>)
    requires Sound(m, h) && WellFormed(n)
    requires pid in m.dirs && PageOfAddress(va) < PAGES && Offset(va) + |bytes| <= PAGE_SIZE
    requires OnlyWrites(m, n, pid, va, bytes)
    ensures Sound(n, h + [Wrote(pid, va, bytes)])
  {
    assert WroteAt(m, n, pid, va, bytes, pid, PageOfAddress(va));
    forall p, v | p in m.dirs && 0 <= v < PAGES
      ensures View(n, p, v) ==
        (if p == pid && v == PageOfAddress(va) then Overwrite(View(m, p, v), Offset(va), bytes) else View(m, p, v)) {
      assert WroteAt(m, n, pid, va, bytes, p, v);
    }
    WriteRemembered(m, n, h, pid, va, bytes);
  }

  lemma StoreMixed(m: Memory, n: Memory, pid: nat, va: nat, bytes: seq<Byte>, tlb: map<nat, Loc>, curr: nat)
    requires WellFormed(m) && WellFormed(n) && Mixed(m, tlb, curr)
    requires PageOfAddress(va) < PAGES && Offset(va) + |bytes| <= PAGE_SIZE && OnlyWrites(m, n, pid, va, bytes)
    ensures Mixed(n, tlb, curr) && (Coherent(m, tlb, curr) ==> Coherent(n, tlb, curr))
  {
    forall v | v in tlb ensures MixedAt(n, tlb[v], curr, v) {
      assert MixedAt(m, tlb[v], curr, v) && (curr in m.dirs ==> WroteAt(m, n, pid, va, bytes, curr, v));
    }
    CoherentIffUsable(m, tlb, curr);
    CoherentIffUsable(n, tlb, curr);
    forall v ensures Usable(m, tlb, v) ==> Usable(n, tlb, v) {}
  }

  function LastBytes(h: seq<Act>, pid: nat, a: nat, n: nat): (r: seq<Byte>)
    ensures |r| == n && forall k :: 0 <= k < n ==> r[k] == LastByte(h, pid, a + k)
  {
    seq<Byte>(n, k requires 0 <= k => LastByte(h, pid, a + k))
  }

  /** The bytes a read copies are the ones last written. */
  lemma ReadsBack(m: Memory, h: seq<Act>, pid: nat, va: nat, n: nat)
    requires WellFormed(m) && Remembers(m, h) && pid in m.dirs
    requires PageOfAddress(va) < PAGES && Offset(va) + n <= PAGE_SIZE
    ensures |View(m, pid, PageOfAddress(va))| == PAGE_SIZE
    ensures View(m, pid, PageOfAddress(va))[Offset(va)..Offset(va) + n] == LastBytes(h, pid, va, n)
  {
    var v := PageOfAddress(va);
    AddressIndices(va);
    assert RemembersPage(m, h, pid, v);
    var slice := View(m, pid, v)[Offset(va)..Offset(va) + n];
    forall k | 0 <= k < n ensures slice[k] == LastBytes(h, pid, va, n)[k] {
      assert View(m, pid, v)[Offset(va) + k] == LastByte(h, pid, v * PAGE_SIZE + (Offset(va) + k));
    }
  }

  // ---- processes ----

  /** The other processes see what they saw, through the same entries. */
  ghost predicate FollowsOthers(m: Memory, n: Memory, pid: nat)
    requires WellFormed(m) && WellFormed(n)
  {
    && m.dirs.Keys - {pid} == n.dirs.Keys - {pid} && KeepsLost(m, n)
    && forall p, v {:trigger FollowsAt(m, n, p, v)} ::
      p in m.dirs && p in n.dirs && p != pid && 0 <= v < PAGES ==> FollowsAt(m, n, p, v)
  }

  lemma FollowsOthersMixedAt(m: Memory, n: Memory, pid: nat, loc: Loc, curr: nat, v: nat)
    requires WellFormed(m) && WellFormed(n) && FollowsOthers(m, n, pid) && curr != pid
    requires v < PAGES && MixedAt(m, loc, curr, v)
    ensures MixedAt(n, loc, curr, v) && (IsLost(m, loc.table) <==> IsLost(n, loc.table))
  {
    if IsLost(m, loc.table) {
      assert IsLost(n, loc.table);
    } else {
      assert curr in m.dirs.Keys - {pid};
      assert FollowsAt(m, n, curr, v);
      WalksAreNotLost(n, curr, v);
    }
  }

  lemma FollowsOthersMixed(m: Memory, n: Memory, pid: nat, tlb: map<nat, Loc>, curr: nat)
    requires WellFormed(m) && WellFormed(n) && FollowsOthers(m, n, pid) && Mixed(m, tlb, curr) && curr != pid
    ensures Mixed(n, tlb, curr) && (Coherent(m, tlb, curr) <==> Coherent(n, tlb, curr))
  {
    forall v | v in tlb ensures MixedAt(n, tlb[v], curr, v) && (Usable(m, tlb, v) <==> Usable(n, tlb, v)) {
      FollowsOthersMixedAt(m, n, pid, tlb[v], curr, v);
    }
    forall v ensures Usable(m, tlb, v) <==> Usable(n, tlb, v) { assert v !in tlb ==> Usable(m, tlb, v); }
    CoherentIffUsable(m, tlb, curr);
    CoherentIffUsable(n, tlb, curr);
  }

  /** A change to process `pid` follows what came before it, and other changes follow. */
  lemma FollowsAround(m: Memory, n: Memory, o: Memory, r: Memory, pid: nat)
    requires WellFormed(m) && WellFormed(n) && WellFormed(o) && WellFormed(r)
    requires Follows(m, n) && FollowsOthers(n, o, pid) && Follows(o, r)
    ensures FollowsOthers(m, r, pid)
  {
    forall p, v | p in m.dirs && p in r.dirs && p != pid && 0 <= v < PAGES ensures FollowsAt(m, r, p, v) {
      assert p in n.dirs.Keys - {pid} && p in o.dirs;
      assert FollowsAt(m, n, p, v) && FollowsAt(n, o, p, v) && FollowsAt(o, r, p, v);
    }
    forall f | IsLost(m, f) ensures IsLost(r, f) { assert IsLost(n, f) && IsLost(o, f); }
  }

  lemma WithDirSound(m: Memory, pid: nat, f: nat, h: seq<Act>)
    requires Sound(m, h) && f !in m.frames
    ensures Sound(WithDir(m, pid, f), h + [Created(pid)])
    ensures WalkOf(WithDir(m, pid, f), pid, 0).None?
  {
    var n := WithDir(m, pid, f);
    WithDirKeeps(m, pid, f);
    forall p, v | p in n.dirs && 0 <= v < PAGES
      ensures View(n, p, v) == if p == pid then ZeroPage() else View(m, p, v) {
      WithDirView(m, pid, f, p, v);
    }
    CreationRemembered(m, n, h, pid);
    WithDirView(m, pid, f, pid, 0);
  }

  /** All cached entries lie in tables that have been lost. */
  ghost predicate Stale(m: Memory, tlb: map<nat, Loc>) {
    forall v {:trigger tlb[v]} :: v in tlb ==> v < PAGES && IsLost(m, tlb[v].table)
  }

  /** What was cached for process `pid` is stale once it has a fresh directory. */
  lemma WithDirStale(m: Memory, pid: nat, f: nat, tlb: map<nat, Loc>)
    requires WellFormed(m) && f !in m.frames && Mixed(m, tlb, pid)
    ensures Stale(WithDir(m, pid, f), tlb)
  {
    forall v | v in tlb ensures v < PAGES && IsLost(WithDir(m, pid, f), tlb[v].table) {
      assert MixedAt(m, tlb[v], pid, v);
      if !IsLost(m, tlb[v].table) { WalkIsGood(m, pid, v); }
    }
  }

  /** Changes that lose nothing do not matter to what is lost. */
  lemma LosesThrough(m: Memory, n: Memory, o: Memory, r: Memory)
    requires WellFormed(m) && WellFormed(n) && WellFormed(o) && WellFormed(r) && SameLost(m, n) && SameLost(o, r)
    ensures Loses(m, r) <==> Loses(n, o)
  {
    forall f ensures (Stranded(m, f) <==> Stranded(n, f)) && (Stranded(o, f) <==> Stranded(r, f)) {
      LostIsStranded(m, f);
      LostIsStranded(n, f);
      LostIsStranded(o, f);
      LostIsStranded(r, f);
    }
  }

  /** The change of directory, seen from memory before the kernel was asked. */
  lemma WithDirFollows(before: Memory, m: Memory, pid: nat, f: nat, tlb: map<nat, Loc>)
    requires WellFormed(before) && WellFormed(m) && f !in m.frames && Follows(before, m)
    ensures WellFormed(WithDir(m, pid, f)) && FollowsOthers(before, WithDir(m, pid, f), pid)
    ensures Loses(before, WithDir(m, pid, f)) <==> pid in before.dirs
    ensures Mixed(before, tlb, pid) ==> Stale(WithDir(m, pid, f), tlb)
  {
    var n := WithDir(m, pid, f);
    WithDirKeeps(m, pid, f);
    forall p, v | p in m.dirs && p in n.dirs && p != pid && 0 <= v < PAGES ensures FollowsAt(m, n, p, v) {
      WithDirView(m, pid, f, p, v);
    }
    FollowsReflexive(n);
    FollowsAround(before, m, n, n, pid);
    WithDirLoses(m, pid, f);
    LosesThrough(before, m, n, n);
    if Mixed(before, tlb, pid) {
      FollowsMixed(before, m, tlb, pid);
      WithDirStale(m, pid, f, tlb);
    }
  }

  lemma StaleStays(m: Memory, n: Memory, tlb: map<nat, Loc>)
    requires WellFormed(m) && WellFormed(n) && Stale(m, tlb) && Follows(m, n)
    ensures Stale(n, tlb)
  {
    forall v | v in tlb ensures v < PAGES && IsLost(n, tlb[v].table) { assert IsLost(m, tlb[v].table); }
  }

  lemma StaleIsIncoherent(m: Memory, tlb: map<nat, Loc>, pid: nat)
    requires WellFormed(m) && Stale(m, tlb)
    ensures Mixed(m, tlb, pid) && (Coherent(m, tlb, pid) <==> tlb == map[])
  {
    CoherentIffUsable(m, tlb, pid);
    if tlb != map[] {
      var v :| v in tlb;
      assert !Usable(m, tlb, v);
    }
  }

  /** After a process has been added (`m` before, `n` with its directory, `o` at the end)
      the TLB is as coherent as it was, unless the process is the current one. */
  lemma AddedCoherentIff(m: Memory, n: Memory, o: Memory, pid: nat, tlb: map<nat, Loc>, curr: nat)
    requires WellFormed(m) && WellFormed(n) && WellFormed(o) && FollowsOthers(m, n, pid) && Follows(n, o)
    requires Mixed(m, tlb, curr) && (Mixed(m, tlb, pid) ==> Stale(n, tlb))
    ensures FollowsOthers(m, o, pid) && Mixed(o, tlb, curr) && (Loses(m, o) <==> Loses(m, n))
    ensures Coherent(o, tlb, curr) <==> if pid == curr then tlb == map[] else Coherent(m, tlb, curr)
  {
    FollowsReflexive(m);
    FollowsAround(m, m, n, o, pid);
    LosesThrough(m, m, n, o);
    if pid == curr {
      StaleStays(n, o, tlb);
      StaleIsIncoherent(o, tlb, curr);
    } else {
      FollowsOthersMixed(m, o, pid, tlb, curr);
    }
  }

  lemma WithoutProcessFollows(m: Memory, pid: nat)
    requires WellFormed(m) && pid in m.dirs
    ensures WellFormed(WithoutProcess(m, pid)) && FollowsOthers(m, WithoutProcess(m, pid), pid)
  {
    var n := WithoutProcess(m, pid);
    WithoutProcessKeeps(m, pid);
    assert GoodDir(m, pid);
    forall p, v | p in m.dirs && p in n.dirs && p != pid && 0 <= v < PAGES ensures FollowsAt(m, n, p, v) {
      WithoutProcessView(m, pid, p, v);
    }
  }

  lemma FewerSound(m: Memory, n: Memory, pid: nat, h: seq<Act>)
    requires Sound(m, h) && WellFormed(n) && FollowsOthers(m, n, pid) && pid !in n.dirs
    ensures Sound(n, h)
  {
    forall p, v | p in n.dirs && 0 <= v < PAGES ensures RemembersPage(n, h, p, v) {
      assert p in n.dirs.Keys - {pid};
      assert RemembersPage(m, h, p, v) && FollowsAt(m, n, p, v);
    }
  }

  /** Table `t` serves pages 0 to 2; of these the ones from 1 to before `i` are in
      memory, or have been evicted again. */
  ghost predicate FirstPages(m: Memory, pid: nat, t: nat, i: nat, evicted: set<Loc>) {
    && WellFormed(m) && pid in m.dirs
    && forall v: nat {:trigger FirstPage(m, pid, t, i, evicted, v)} :: v < 3 ==> FirstPage(m, pid, t, i, evicted, v)
  }

  ghost predicate FirstPage(m: Memory, pid: nat, t: nat, i: nat, evicted: set<Loc>, v: nat)
    requires WellFormed(m) && pid in m.dirs && v < 3
  {
    && WalkOf(m, pid, v) == Some(Loc(t, v))
    && (1 <= v < i ==> Loc(t, v) in evicted || Present(m, Loc(t, v)))
    && (i <= v ==> Absent(m, Loc(t, v)))
  }

  lemma FirstPagesStart(m: Memory, pid: nat, t: nat)
    requires WellFormed(m) && pid in m.dirs && WalkOf(m, pid, 0) == Some(Loc(t, 0))
    requires forall i: nat :: i < NUM_ENTRIES ==> Absent(m, Loc(t, i))
    ensures FirstPages(m, pid, t, 1, {})
  {
    WalkIsGood(m, pid, 0);
    forall v: nat | v < 3 ensures FirstPage(m, pid, t, 1, {}, v) { assert Absent(m, Loc(t, v)); }
  }

  lemma FirstPagesStep(m: Memory, n: Memory, pid: nat, t: nat, i: nat, before: set<Loc>, evicted: set<Loc>)
    requires FirstPages(m, pid, t, i, before) && 1 <= i < 3 && WellFormed(n) && Follows(m, n) && Present(n, Loc(t, i))
    requires KeepsPresent(m, n, evicted)
    requires forall l {:trigger Absent(n, l)} :: Absent(m, l) && l != Loc(t, i) ==> Absent(n, l)
    ensures FirstPages(n, pid, t, i + 1, before + evicted)
  {
    var j, gone := i + 1, before + evicted;
    forall v: nat | v < 3 ensures FirstPage(n, pid, t, j, gone, v) {
      assert FirstPage(m, pid, t, i, before, v) && FollowsAt(m, n, pid, v);
    }
  }

  /** What a new process starts with: a table for its first pages, page 2 in memory, and
      page 1 too unless it is among the evicted. */
  ghost predicate TestingPages(m: Memory, pid: nat, evicted: set<Loc>) {
    && WellFormed(m) && pid in m.dirs
    && (forall v: nat :: v < 3 ==> WalkOf(m, pid, v).Some?)
    && (Faults(m, pid, 1) == 0 || WalkOf(m, pid, 1).value in evicted)
    && Faults(m, pid, 2) == 0
  }

  lemma FirstPagesDone(m: Memory, pid: nat, t: nat, evicted: set<Loc>)
    requires FirstPages(m, pid, t, 3, evicted) && Present(m, Loc(t, 2))
    ensures TestingPages(m, pid, evicted)
  {
    forall v: nat | v < 3 ensures WalkOf(m, pid, v) == Some(Loc(t, v)) {
      assert FirstPage(m, pid, t, 3, evicted, v);
    }
    assert FirstPage(m, pid, t, 3, evicted, 1);
  }
}
