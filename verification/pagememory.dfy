/** Page directories, page tables, frames and swap, as the MMU of
    `ideal_indirection/mmu.c` uses them. */
module PageMemory {
  import opened ByteValues
  import opened Options

  const PAGE_SIZE: nat := 4096
  const NUM_ENTRIES: nat := 1024
  /** Page numbers of the addresses whose `va >> 20` is a directory index. */
  const PAGES: nat := 0x40000

  /** The fields of a directory or table entry that steer translation. */
  datatype Entry = Entry(present: bool, base: nat)

  datatype Frame = Table(entries: seq<Entry>) | Data(bytes: seq<Byte>)

  /** Where a page table entry lies: frame of its table, and index. */
  datatype Loc = Loc(table: nat, index: nat)

  /** What a frame in use is for; `Lost` frames were given to a process that has since
      been added anew, and no walk comes to them any more. */
  datatype Role = DirOf(pid: nat) | TableOf(pid: nat, d: nat) | PageOf(loc: Loc) | Lost

  /** `dirs` gives each process its directory frame; `disk` holds evicted pages,
      filed under the location of their entry. `role` is bookkeeping for proofs. */
  datatype Memory = Memory(dirs: map<nat, nat>, frames: map<nat, Frame>,
                           disk: map<Loc, seq<Byte>>, role: map<nat, Role>)

  function ZeroTable(): Frame {
    Table(seq(NUM_ENTRIES, _ => Entry(false, 0)))
  }

  function ZeroPage(): seq<Byte> {
    seq(PAGE_SIZE, _ => 0)
  }

  predicate IsTable(m: Memory, f: nat) {
    f in m.frames && m.frames[f].Table? && |m.frames[f].entries| == NUM_ENTRIES
  }

  predicate IsPage(m: Memory, f: nat) {
    f in m.frames && m.frames[f].Data? && |m.frames[f].bytes| == PAGE_SIZE
  }

  predicate IsTableFrame(m: Memory, t: nat) {
    t in m.role && m.role[t].TableOf?
  }

  /** A frame is used the way its role says, and its owner points to it. */
  ghost predicate Placed(m: Memory, f: nat)
    requires f in m.role
  {
    match m.role[f]
    case DirOf(p) => IsTable(m, f) && p in m.dirs && m.dirs[p] == f
    case TableOf(p, d) =>
      && IsTable(m, f) && p in m.dirs && IsTable(m, m.dirs[p]) && d < NUM_ENTRIES
      && m.frames[m.dirs[p]].entries[d] == Entry(true, f)
    case PageOf(loc) =>
      && IsPage(m, f) && IsTableFrame(m, loc.table) && IsTable(m, loc.table) && loc.index < NUM_ENTRIES
      && m.frames[loc.table].entries[loc.index] == Entry(true, f)
    case Lost => true
  }

  ghost predicate DirEntries(m: Memory, p: nat)
    requires p in m.dirs && IsTable(m, m.dirs[p])
  {
    forall d :: 0 <= d < NUM_ENTRIES && m.frames[m.dirs[p]].entries[d].present ==>
      m.frames[m.dirs[p]].entries[d].base in m.role && m.role[m.frames[m.dirs[p]].entries[d].base] == TableOf(p, d)
  }

  ghost predicate TableEntries(m: Memory, t: nat)
    requires IsTable(m, t)
  {
    forall i :: 0 <= i < NUM_ENTRIES && m.frames[t].entries[i].present ==>
      m.frames[t].entries[i].base in m.role && m.role[m.frames[t].entries[i].base] == PageOf(Loc(t, i))
  }

  ghost predicate GoodDir(m: Memory, p: nat) {
    p in m.dirs && m.dirs[p] in m.role && m.role[m.dirs[p]] == DirOf(p) && IsTable(m, m.dirs[p]) && DirEntries(m, p)
  }

  ghost predicate GoodTable(m: Memory, t: nat) {
    IsTable(m, t) && TableEntries(m, t)
  }

  predicate IsLost(m: Memory, t: nat) {
    t in m.role && m.role[t].Lost?
  }

  ghost predicate GoodSwap(m: Memory, loc: Loc) {
    && loc in m.disk && (IsTableFrame(m, loc.table) || IsLost(m, loc.table))
    && loc.index < NUM_ENTRIES && |m.disk[loc]| == PAGE_SIZE
  }

  /** The page structure is a forest: frames have one use and one owner. */
  ghost predicate WellFormed(m: Memory) {
    && m.role.Keys == m.frames.Keys
    && (forall f {:trigger Placed(m, f)} :: f in m.role ==> Placed(m, f))
    && (forall p :: p in m.dirs ==> IsTable(m, m.dirs[p]))
    && (forall p {:trigger GoodDir(m, p)} :: p in m.dirs ==> GoodDir(m, p))
    && (forall t {:trigger GoodTable(m, t)} :: IsTableFrame(m, t) ==> GoodTable(m, t))
    && (forall loc {:trigger GoodSwap(m, loc)} :: loc in m.disk ==> GoodSwap(m, loc))
  }

  // ---- translation ----

  /** `va >> 20` for an address on page `v`. */
  function DirIndex(v: nat): nat {
    v / 256
  }

  /** `(va & 0x003FF000) >> 12` for an address on page `v`. */
  function TableIndex(v: nat): nat {
    v % NUM_ENTRIES
  }

  /** The two-level walk: where process `p`'s entry for page `v` is, if its table exists. */
  function Walk(m: Memory, p: nat, v: nat): Option<Loc>
    requires p in m.dirs && IsTable(m, m.dirs[p]) && v < PAGES
  {
    var pde := m.frames[m.dirs[p]].entries[DirIndex(v)];
    if pde.present then Some(Loc(pde.base, TableIndex(v))) else None
  }

  /** What a page holds, wherever it is: in its frame, on disk, or never used. */
  function PageAt(m: Memory, loc: Loc): seq<Byte>
    requires IsTable(m, loc.table) && loc.index < NUM_ENTRIES
    requires m.frames[loc.table].entries[loc.index].present ==> IsPage(m, m.frames[loc.table].entries[loc.index].base)
  {
    var pte := m.frames[loc.table].entries[loc.index];
    if pte.present then m.frames[pte.base].bytes
    else if loc in m.disk then m.disk[loc]
    else ZeroPage()
  }

  lemma LocIsGood(m: Memory, loc: Loc)
    requires WellFormed(m) && IsTableFrame(m, loc.table) && loc.index < NUM_ENTRIES
    ensures IsTable(m, loc.table)
    ensures m.frames[loc.table].entries[loc.index].present ==> IsPage(m, m.frames[loc.table].entries[loc.index].base)
    ensures |PageAt(m, loc)| == PAGE_SIZE
  {
    assert GoodTable(m, loc.table);
    if m.frames[loc.table].entries[loc.index].present {
      assert Placed(m, m.frames[loc.table].entries[loc.index].base);
    }
    if loc in m.disk { assert GoodSwap(m, loc); }
  }

  lemma WalkIsGood(m: Memory, p: nat, v: nat)
    requires WellFormed(m) && p in m.dirs && v < PAGES
    ensures IsTable(m, m.dirs[p])
    ensures Walk(m, p, v).Some? ==>
      var loc := Walk(m, p, v).value;
      && IsTableFrame(m, loc.table) && m.role[loc.table] == TableOf(p, DirIndex(v))
      && loc.index == TableIndex(v) < NUM_ENTRIES && IsTable(m, loc.table)
      && (m.frames[loc.table].entries[loc.index].present ==> IsPage(m, m.frames[loc.table].entries[loc.index].base))
  {
    assert GoodDir(m, p);
    if Walk(m, p, v).Some? { LocIsGood(m, Walk(m, p, v).value); }
  }

  /** What process `p` sees on page `v`. */
  ghost function View(m: Memory, p: nat, v: nat): seq<Byte>
    requires WellFormed(m) && p in m.dirs && v < PAGES
  {
    WalkIsGood(m, p, v);
    match Walk(m, p, v)
    case None => ZeroPage()
    case Some(loc) => PageAt(m, loc)
  }

  /** The two indices overlap in two bits, yet together they determine the page. */
  lemma IndexPairIsInjective(v: nat, w: nat)
    requires DirIndex(v) == DirIndex(w) && TableIndex(v) == TableIndex(w)
    ensures v == w
  {
    LowBits(v);
    LowBits(w);
  }

  lemma LowBits(v: nat)
    ensures v % NUM_ENTRIES % 256 == v % 256
  {
    assert v == v / NUM_ENTRIES * 4 * 256 + v % NUM_ENTRIES;
  }

  /** No two processes or pages share an entry. */
  lemma WalksAreDisjoint(m: Memory, p: nat, v: nat, q: nat, w: nat)
    requires WellFormed(m) && p in m.dirs && q in m.dirs && v < PAGES && w < PAGES
    requires Walk(m, p, v).Some? && Walk(m, p, v) == Walk(m, q, w)
    ensures p == q && v == w
  {
    WalkIsGood(m, p, v);
    WalkIsGood(m, q, w);
    IndexPairIsInjective(v, w);
  }

  // ---- the changes the MMU and the kernel make ----

  function SetEntry(m: Memory, t: nat, i: nat, e: Entry): Memory
    requires IsTable(m, t) && i < NUM_ENTRIES
  {
    m.(frames := m.frames[t := Table(m.frames[t].entries[i := e])])
  }

  /** A directory fault: a fresh zeroed frame becomes page table `d` of process `p`. */
  function WithTable(m: Memory, p: nat, d: nat, f: nat): Memory
    requires p in m.dirs && IsTable(m, m.dirs[p]) && d < NUM_ENTRIES
  {
    SetEntry(m, m.dirs[p], d, Entry(true, f)).(
      frames := SetEntry(m, m.dirs[p], d, Entry(true, f)).frames[f := ZeroTable()],
      role := m.role[f := TableOf(p, d)])
  }

  /** A page fault: a fresh frame is filled from swap, or is zero. */
  function WithPage(m: Memory, loc: Loc, f: nat): Memory
    requires IsTable(m, loc.table) && loc.index < NUM_ENTRIES
  {
    SetEntry(m, loc.table, loc.index, Entry(true, f)).(
      frames := SetEntry(m, loc.table, loc.index, Entry(true, f)).frames[
        f := Data(if loc in m.disk then m.disk[loc] else ZeroPage())],
      role := m.role[f := PageOf(loc)])
  }

  /** The kernel takes a page's frame away and saves its contents. */
  function Evicted(m: Memory, loc: Loc): Memory
    requires IsTable(m, loc.table) && loc.index < NUM_ENTRIES
    requires IsPage(m, m.frames[loc.table].entries[loc.index].base)
  {
    var f := m.frames[loc.table].entries[loc.index].base;
    SetEntry(m, loc.table, loc.index, Entry(false, f)).(
      frames := SetEntry(m, loc.table, loc.index, Entry(false, f)).frames - {f},
      disk := m.disk[loc := m.frames[f].bytes],
      role := m.role - {f})
  }

  lemma WithTablePlaced(m: Memory, p: nat, d: nat, f: nat, g: nat)
    requires WellFormed(m) && p in m.dirs && d < NUM_ENTRIES && f !in m.frames
    requires !m.frames[m.dirs[p]].entries[d].present
    requires g in m.role || g == f
    ensures Placed(WithTable(m, p, d, f), g)
  {
    if g != f { assert Placed(m, g); }
    assert GoodDir(m, p);
  }

  lemma WithTableDir(m: Memory, p: nat, d: nat, f: nat, q: nat)
    requires WellFormed(m) && p in m.dirs && d < NUM_ENTRIES && f !in m.frames
    requires !m.frames[m.dirs[p]].entries[d].present && q in m.dirs
    ensures GoodDir(WithTable(m, p, d, f), q)
  {
    assert GoodDir(m, q) && GoodDir(m, p);
  }

  lemma WithTableTable(m: Memory, p: nat, d: nat, f: nat, t: nat)
    requires WellFormed(m) && p in m.dirs && d < NUM_ENTRIES && f !in m.frames
    requires t == f || IsTableFrame(m, t)
    ensures GoodTable(WithTable(m, p, d, f), t)
  {
    if t != f { assert GoodTable(m, t); }
    assert GoodDir(m, p);
  }

  lemma WithTableKeeps(m: Memory, p: nat, d: nat, f: nat)
    requires WellFormed(m) && p in m.dirs && d < NUM_ENTRIES && f !in m.frames
    requires !m.frames[m.dirs[p]].entries[d].present
    ensures WellFormed(WithTable(m, p, d, f))
  {
    var n := WithTable(m, p, d, f);
    forall g | g in n.role ensures Placed(n, g) { WithTablePlaced(m, p, d, f, g); }
    forall q | q in n.dirs ensures GoodDir(n, q) { WithTableDir(m, p, d, f, q); }
    forall t | IsTableFrame(n, t) ensures GoodTable(n, t) { WithTableTable(m, p, d, f, t); }
    forall loc | loc in n.disk ensures GoodSwap(n, loc) { assert GoodSwap(m, loc); }
  }

  /** A page table entry that can be looked at. */
  ghost predicate Readable(m: Memory, l: Loc) {
    && IsTable(m, l.table) && l.index < NUM_ENTRIES
    && (m.frames[l.table].entries[l.index].present ==> IsPage(m, m.frames[l.table].entries[l.index].base))
  }

  lemma WithTableAt(m: Memory, p: nat, d: nat, f: nat, l: Loc)
    requires WellFormed(m) && p in m.dirs && d < NUM_ENTRIES && f !in m.frames
    requires IsTableFrame(m, l.table) && Readable(m, l)
    ensures Readable(WithTable(m, p, d, f), l) && PageAt(WithTable(m, p, d, f), l) == PageAt(m, l)
  {
    assert GoodDir(m, p) && GoodTable(m, l.table);
  }

  lemma WithTableAtNew(m: Memory, p: nat, d: nat, f: nat, i: nat)
    requires WellFormed(m) && p in m.dirs && d < NUM_ENTRIES && f !in m.frames && i < NUM_ENTRIES
    ensures Readable(WithTable(m, p, d, f), Loc(f, i)) && PageAt(WithTable(m, p, d, f), Loc(f, i)) == ZeroPage()
  {
    assert GoodDir(m, p) && (Loc(f, i) in m.disk ==> GoodSwap(m, Loc(f, i)));
  }

  lemma WithTableWalk(m: Memory, p: nat, d: nat, f: nat, q: nat, v: nat)
    requires WellFormed(m) && p in m.dirs && d < NUM_ENTRIES && f !in m.frames
    requires q in m.dirs && v < PAGES && IsTable(WithTable(m, p, d, f), m.dirs[q])
    ensures Walk(WithTable(m, p, d, f), q, v) ==
            if q == p && DirIndex(v) == d then Some(Loc(f, TableIndex(v))) else Walk(m, q, v)
  {
    assert GoodDir(m, p) && GoodDir(m, q);
  }

  /** A new table shows the same zeros that its absence stood for. */
  lemma WithTableView(m: Memory, p: nat, d: nat, f: nat, q: nat, v: nat)
    requires WellFormed(m) && p in m.dirs && d < NUM_ENTRIES && f !in m.frames
    requires !m.frames[m.dirs[p]].entries[d].present && q in m.dirs && v < PAGES
    requires WellFormed(WithTable(m, p, d, f))
    ensures View(WithTable(m, p, d, f), q, v) == View(m, q, v)
    ensures Walk(m, q, v).Some? ==> Walk(WithTable(m, p, d, f), q, v) == Walk(m, q, v)
  {
    WalkIsGood(WithTable(m, p, d, f), q, v);
    WithTableWalk(m, p, d, f, q, v);
    WalkIsGood(m, q, v);
    WithTableAtNew(m, p, d, f, TableIndex(v));
    if Walk(m, q, v).Some? { WithTableAt(m, p, d, f, Walk(m, q, v).value); }
  }

  // ---- page faults ----

  predicate Absent(m: Memory, loc: Loc) {
    && IsTableFrame(m, loc.table) && IsTable(m, loc.table) && loc.index < NUM_ENTRIES
    && !m.frames[loc.table].entries[loc.index].present
  }

  predicate Present(m: Memory, loc: Loc) {
    && IsTableFrame(m, loc.table) && IsTable(m, loc.table) && loc.index < NUM_ENTRIES
    && m.frames[loc.table].entries[loc.index].present && IsPage(m, m.frames[loc.table].entries[loc.index].base)
  }

  lemma TableIsNotDir(m: Memory, t: nat, p: nat)
    requires WellFormed(m) && IsTableFrame(m, t) && p in m.dirs
    ensures m.dirs[p] != t
  {
    assert GoodDir(m, p);
  }

  lemma WithPageKeeps(m: Memory, loc: Loc, f: nat)
    requires WellFormed(m) && Absent(m, loc) && f !in m.frames
    ensures WellFormed(WithPage(m, loc, f)) && Present(WithPage(m, loc, f), loc)
  {
    var n := WithPage(m, loc, f);
    assert loc in m.disk ==> GoodSwap(m, loc);
    forall g | g in n.role ensures Placed(n, g) {
      if g != f { WithPagePlaced(m, loc, f, g); }
    }
    forall q | q in n.dirs ensures GoodDir(n, q) {
      TableIsNotDir(m, loc.table, q);
      assert GoodDir(m, q);
    }
    forall t | IsTableFrame(n, t) ensures GoodTable(n, t) { assert GoodTable(m, t); }
    forall l | l in n.disk ensures GoodSwap(n, l) { assert GoodSwap(m, l); }
  }

  lemma WithPagePlaced(m: Memory, loc: Loc, f: nat, g: nat)
    requires WellFormed(m) && Absent(m, loc) && f !in m.frames && g in m.role
    ensures Placed(WithPage(m, loc, f), g)
  {
    assert Placed(m, g);
    match m.role[g]
    case DirOf(p) =>
    case TableOf(p, d) => TableIsNotDir(m, loc.table, p);
    case PageOf(l) =>
    case Lost =>
  }

  lemma WithPageAt(m: Memory, loc: Loc, f: nat, l: Loc)
    requires WellFormed(m) && Absent(m, loc) && f !in m.frames
    requires IsTableFrame(m, l.table) && Readable(m, l)
    ensures Readable(WithPage(m, loc, f), l) && PageAt(WithPage(m, loc, f), l) == PageAt(m, l)
  {
    assert GoodTable(m, l.table) && GoodTable(m, loc.table);
    if loc in m.disk { assert GoodSwap(m, loc); }
  }

  /** Faulting a page in, from swap or fresh, changes nobody's view. */
  lemma WithPageView(m: Memory, loc: Loc, f: nat, q: nat, v: nat)
    requires WellFormed(m) && Absent(m, loc) && f !in m.frames && WellFormed(WithPage(m, loc, f))
    requires q in m.dirs && v < PAGES
    ensures View(WithPage(m, loc, f), q, v) == View(m, q, v)
    ensures Walk(WithPage(m, loc, f), q, v) == Walk(m, q, v)
  {
    TableIsNotDir(m, loc.table, q);
    assert GoodDir(m, q);
    WalkIsGood(m, q, v);
    if Walk(m, q, v).Some? { WithPageAt(m, loc, f, Walk(m, q, v).value); }
  }

  // ---- writing and evicting ----

  function WithBytes(m: Memory, f: nat, bytes: seq<Byte>): Memory {
    m.(frames := m.frames[f := Data(bytes)])
  }

  lemma WithBytesPlaced(m: Memory, f: nat, bytes: seq<Byte>, g: nat)
    requires WellFormed(m) && IsPage(m, f) && |bytes| == PAGE_SIZE && g in m.role
    ensures Placed(WithBytes(m, f, bytes), g)
  {
    assert Placed(m, g);
    match m.role[g]
    case DirOf(p) =>
    case TableOf(p, d) =>
    case PageOf(loc) =>
    case Lost =>
  }

  lemma WithBytesKeeps(m: Memory, f: nat, bytes: seq<Byte>)
    requires WellFormed(m) && IsPage(m, f) && |bytes| == PAGE_SIZE
    ensures WellFormed(WithBytes(m, f, bytes))
  {
    var n := WithBytes(m, f, bytes);
    forall g | g in n.role ensures Placed(n, g) { WithBytesPlaced(m, f, bytes, g); }
    forall q | q in n.dirs ensures GoodDir(n, q) { assert GoodDir(m, q); }
    forall t | IsTableFrame(n, t) ensures GoodTable(n, t) { assert GoodTable(m, t); }
    forall l | l in n.disk ensures GoodSwap(n, l) { assert GoodSwap(m, l); }
  }

  /** Writing the frame of one page changes the view of that page alone. */
  lemma WithBytesView(m: Memory, p: nat, v: nat, bytes: seq<Byte>, q: nat, w: nat)
    requires WellFormed(m) && p in m.dirs && q in m.dirs && v < PAGES && w < PAGES && |bytes| == PAGE_SIZE
    requires Walk(m, p, v).Some? && Present(m, Walk(m, p, v).value)
    requires var loc := Walk(m, p, v).value;
      WellFormed(WithBytes(m, m.frames[loc.table].entries[loc.index].base, bytes))
    ensures var loc := Walk(m, p, v).value; var n := WithBytes(m, m.frames[loc.table].entries[loc.index].base, bytes);
      View(n, q, w) == if p == q && v == w then bytes else View(m, q, w)
    ensures var loc := Walk(m, p, v).value; var n := WithBytes(m, m.frames[loc.table].entries[loc.index].base, bytes);
      Walk(n, q, w) == Walk(m, q, w)
  {
    var loc := Walk(m, p, v).value;
    var f := m.frames[loc.table].entries[loc.index].base;
    var n := WithBytes(m, f, bytes);
    assert GoodTable(m, loc.table) && GoodDir(m, q);
    WalkIsGood(m, q, w);
    WalkIsGood(n, q, w);
    if Walk(m, q, w).Some? {
      assert GoodTable(m, Walk(m, q, w).value.table);
      if Walk(m, q, w) == Walk(m, p, v) { WalksAreDisjoint(m, p, v, q, w); }
    }
  }

  lemma EvictedKeeps(m: Memory, loc: Loc)
    requires WellFormed(m) && Present(m, loc)
    ensures WellFormed(Evicted(m, loc)) && Absent(Evicted(m, loc), loc)
  {
    var n := Evicted(m, loc);
    var f := m.frames[loc.table].entries[loc.index].base;
    assert GoodTable(m, loc.table) && m.role[f] == PageOf(loc);
    forall g | g in n.role ensures Placed(n, g) { EvictedPlaced(m, loc, g); }
    forall q | q in n.dirs ensures GoodDir(n, q) {
      TableIsNotDir(m, loc.table, q);
      assert GoodDir(m, q);
    }
    forall t | IsTableFrame(n, t) ensures GoodTable(n, t) { assert GoodTable(m, t); }
    forall l | l in n.disk ensures GoodSwap(n, l) { if l != loc { assert GoodSwap(m, l); } }
  }

  lemma EvictedPlaced(m: Memory, loc: Loc, g: nat)
    requires WellFormed(m) && Present(m, loc) && g in m.role && g != m.frames[loc.table].entries[loc.index].base
    ensures Placed(Evicted(m, loc), g)
  {
    var f := m.frames[loc.table].entries[loc.index].base;
    assert GoodTable(m, loc.table) && m.role[f] == PageOf(loc);
    assert Placed(m, g);
    match m.role[g]
    case DirOf(p) =>
    case TableOf(p, d) => TableIsNotDir(m, loc.table, p); assert GoodDir(m, p);
    case PageOf(l) =>
    case Lost =>
  }

  /** Eviction changes nobody's view. */
  lemma EvictedView(m: Memory, loc: Loc, q: nat, v: nat)
    requires WellFormed(m) && Present(m, loc) && WellFormed(Evicted(m, loc)) && q in m.dirs && v < PAGES
    ensures View(Evicted(m, loc), q, v) == View(m, q, v)
    ensures Walk(Evicted(m, loc), q, v) == Walk(m, q, v)
  {
    var n := Evicted(m, loc);
    var f := m.frames[loc.table].entries[loc.index].base;
    assert GoodTable(m, loc.table) && m.role[f] == PageOf(loc);
    TableIsNotDir(m, loc.table, q);
    assert GoodDir(m, q) && GoodDir(n, q);
    WalkIsGood(m, q, v);
    WalkIsGood(n, q, v);
    if Walk(m, q, v).Some? {
      assert GoodTable(m, Walk(m, q, v).value.table);
    }
  }

  // ---- processes coming and going ----

  /** Frame `f` is the directory of process `p`, or one of its tables or pages. */
  predicate Owns(m: Memory, p: nat, f: nat) {
    && f in m.role
    && match m.role[f] {
         case DirOf(q) => q == p
         case TableOf(q, _) => q == p
         case PageOf(loc) => loc.table in m.role && m.role[loc.table].TableOf? && m.role[loc.table].pid == p
         case Lost => false
       }
  }

  lemma OwnerHasDirectory(m: Memory, p: nat, f: nat)
    requires WellFormed(m) && f in m.role
    ensures Owns(m, p, f) ==> p in m.dirs && (m.role[f].DirOf? <==> m.dirs[p] == f)
    ensures p in m.dirs && m.dirs[p] == f ==> Owns(m, p, f)
    ensures m.role[f].TableOf? ==> m.role[f].d < NUM_ENTRIES
    ensures m.role[f].PageOf? ==> IsTableFrame(m, m.role[f].loc.table) && m.role[m.role[f].loc.table].d < NUM_ENTRIES
  {
    assert Placed(m, f) && (p in m.dirs ==> GoodDir(m, p));
    if m.role[f].PageOf? { assert Placed(m, m.role[f].loc.table); }
  }

  /** Frame `f` is on the walk through directory entry `d` and table entry `i` of
      process `p`. */
  ghost predicate OnWalk(m: Memory, p: nat, d: nat, i: nat, f: nat) {
    && p in m.dirs
    && (m.dirs[p] == f
        || (IsTable(m, m.dirs[p]) && d < NUM_ENTRIES && m.frames[m.dirs[p]].entries[d].present
            && var t := m.frames[m.dirs[p]].entries[d].base;
               t == f || (IsTable(m, t) && i < NUM_ENTRIES && m.frames[t].entries[i] == Entry(true, f))))
  }

  ghost predicate WalksTo(m: Memory, p: nat, f: nat) {
    exists d, i :: OnWalk(m, p, d, i, f)
  }

  /** A process owns just the frames its walks come to. */
  lemma OwnsMeans(m: Memory, p: nat, f: nat)
    requires WellFormed(m) && f in m.role
    ensures Owns(m, p, f) <==> WalksTo(m, p, f)
  {
    assert Placed(m, f);
    if Owns(m, p, f) {
      match m.role[f]
      case DirOf(_) => assert OnWalk(m, p, 0, 0, f);
      case TableOf(_, d) => assert OnWalk(m, p, d, 0, f);
      case PageOf(loc) =>
        assert Placed(m, loc.table);
        assert OnWalk(m, p, m.role[loc.table].d, loc.index, f);
    }
    forall d, i | OnWalk(m, p, d, i, f) ensures Owns(m, p, f) { WalkedIsOwned(m, p, d, i, f); }
  }

  lemma WalkedIsOwned(m: Memory, p: nat, d: nat, i: nat, f: nat)
    requires WellFormed(m) && OnWalk(m, p, d, i, f)
    ensures Owns(m, p, f)
  {
    assert GoodDir(m, p);
    if m.dirs[p] != f { assert GoodTable(m, m.frames[m.dirs[p]].entries[d].base); }
  }

  /** The frame is in use, but no walk of any process comes to it. */
  ghost predicate Stranded(m: Memory, f: nat) {
    f in m.frames && forall p, d, i :: !OnWalk(m, p, d, i, f)
  }

  /** Some frame is stranded in `n` that was not in `m`. */
  ghost predicate Loses(m: Memory, n: Memory) {
    exists f :: Stranded(n, f) && !Stranded(m, f)
  }

  /** The lost frames are just the stranded ones. */
  lemma LostIsStranded(m: Memory, f: nat)
    requires WellFormed(m)
    ensures IsLost(m, f) <==> Stranded(m, f)
  {
    if IsLost(m, f) {
      forall p, d, i ensures !OnWalk(m, p, d, i, f) { if OnWalk(m, p, d, i, f) { WalkedIsOwned(m, p, d, i, f); } }
    } else if f in m.frames {
      assert Placed(m, f);
      match m.role[f]
      case DirOf(p) => assert OnWalk(m, p, 0, 0, f);
      case TableOf(p, d) => assert OnWalk(m, p, d, 0, f);
      case PageOf(loc) =>
        assert Placed(m, loc.table);
        assert OnWalk(m, m.role[loc.table].pid, m.role[loc.table].d, loc.index, f);
    }
  }

  /** A fresh directory for process `p`. What it had before, if anything, is lost. */
  function WithDir(m: Memory, p: nat, f: nat): Memory {
    m.(dirs := m.dirs[p := f], frames := m.frames[f := ZeroTable()],
       role := (map g | g in m.role :: if Owns(m, p, g) then Lost else m.role[g])[f := DirOf(p)])
  }

  lemma WithDirPlaced(m: Memory, p: nat, f: nat, g: nat)
    requires WellFormed(m) && f !in m.frames && g in m.role
    ensures Placed(WithDir(m, p, f), g)
  {
    assert Placed(m, g);
    match m.role[g]
    case DirOf(q) =>
    case TableOf(q, d) => if q != p { assert GoodDir(m, q); }
    case PageOf(loc) => assert Placed(m, loc.table);
    case Lost =>
  }

  lemma WithDirTable(m: Memory, p: nat, f: nat, t: nat)
    requires WellFormed(m) && f !in m.frames && IsTableFrame(WithDir(m, p, f), t)
    ensures GoodTable(WithDir(m, p, f), t)
  {
    assert GoodTable(m, t);
  }

  lemma WithDirKeeps(m: Memory, p: nat, f: nat)
    requires WellFormed(m) && f !in m.frames
    ensures WellFormed(WithDir(m, p, f))
  {
    var n := WithDir(m, p, f);
    forall g | g in n.role ensures Placed(n, g) {
      if g != f { WithDirPlaced(m, p, f, g); }
    }
    forall q | q in n.dirs ensures GoodDir(n, q) { if q != p { assert GoodDir(m, q); } }
    forall t | IsTableFrame(n, t) ensures GoodTable(n, t) { WithDirTable(m, p, f, t); }
    forall l | l in n.disk ensures GoodSwap(n, l) { assert GoodSwap(m, l); }
  }

  /** Frames are lost just if the process was there before. */
  lemma WithDirLoses(m: Memory, p: nat, f: nat)
    requires WellFormed(m) && f !in m.frames && WellFormed(WithDir(m, p, f))
    ensures Loses(m, WithDir(m, p, f)) <==> p in m.dirs
  {
    var n := WithDir(m, p, f);
    if p in m.dirs {
      assert GoodDir(m, p);
      LostIsStranded(m, m.dirs[p]);
      LostIsStranded(n, m.dirs[p]);
    } else {
      forall g ensures Stranded(n, g) ==> Stranded(m, g) {
        LostIsStranded(m, g);
        LostIsStranded(n, g);
        if g in m.role { OwnerHasDirectory(m, p, g); }
      }
    }
  }

  /** A new process sees zeros; the others see what they saw. */
  lemma WithDirView(m: Memory, p: nat, f: nat, q: nat, v: nat)
    requires WellFormed(m) && f !in m.frames && WellFormed(WithDir(m, p, f))
    requires (q == p || q in m.dirs) && v < PAGES
    ensures View(WithDir(m, p, f), q, v) == if q == p then ZeroPage() else View(m, q, v)
    ensures q != p ==> Walk(WithDir(m, p, f), q, v) == Walk(m, q, v)
    ensures q == p ==> Walk(WithDir(m, p, f), q, v) == None
  {
    var n := WithDir(m, p, f);
    WalkIsGood(n, q, v);
    if q != p {
      assert GoodDir(m, q);
      WalkIsGood(m, q, v);
      if Walk(m, q, v).Some? { assert GoodTable(m, Walk(m, q, v).value.table); }
    }
  }

  /** The removal loops have passed this table entry of process `p`: they are at
      table `d`, entry `i`. */
  predicate Past(m: Memory, p: nat, d: nat, i: nat, loc: Loc) {
    && loc.table in m.role && m.role[loc.table].TableOf? && m.role[loc.table].pid == p
    && (m.role[loc.table].d < d || (m.role[loc.table].d == d && loc.index < i))
  }

  /** The frames given back by then: pages of passed entries and tables before `d`. */
  predicate Returned(m: Memory, p: nat, d: nat, i: nat, f: nat)
    requires f in m.role
  {
    match m.role[f]
    case DirOf(_) => false
    case TableOf(q, e) => q == p && e < d
    case PageOf(loc) => Past(m, p, d, i, loc)
    case Lost => false
  }

  function FramesLeft(m: Memory, p: nat, d: nat, i: nat): map<nat, Frame> {
    map f | f in m.frames && f in m.role && !Returned(m, p, d, i, f) :: m.frames[f]
  }

  function RolesLeft(m: Memory, p: nat, d: nat, i: nat): map<nat, Role> {
    map f | f in m.role && !Returned(m, p, d, i, f) :: m.role[f]
  }

  function SwapLeft(m: Memory, p: nat, d: nat, i: nat): map<Loc, seq<Byte>> {
    map loc | loc in m.disk && !Past(m, p, d, i, loc) :: m.disk[loc]
  }

  /** Everything of process `p` is gone. */
  function WithoutProcess(m: Memory, p: nat): Memory
    requires p in m.dirs
  {
    Memory(m.dirs - {p}, FramesLeft(m, p, NUM_ENTRIES, 0) - {m.dirs[p]}, SwapLeft(m, p, NUM_ENTRIES, 0),
           RolesLeft(m, p, NUM_ENTRIES, 0) - {m.dirs[p]})
  }

  /** Memory when the removal loops are at table `d`, entry `i`. */
  function Passing(m: Memory, p: nat, d: nat, i: nat): Memory {
    Memory(m.dirs, FramesLeft(m, p, d, i), SwapLeft(m, p, d, i), RolesLeft(m, p, d, i))
  }

  lemma PassNothing(m: Memory, p: nat)
    requires WellFormed(m)
    ensures Passing(m, p, 0, 0) == m
  {
    assert FramesLeft(m, p, 0, 0) == m.frames && RolesLeft(m, p, 0, 0) == m.role && SwapLeft(m, p, 0, 0) == m.disk;
  }

  /** Passing entry `i` of table `t` gives back at most the page it points to. */
  lemma PassEntry(m: Memory, p: nat, d: nat, i: nat, t: nat)
    requires WellFormed(m) && t in m.role && m.role[t] == TableOf(p, d) && i < NUM_ENTRIES && d < NUM_ENTRIES
    ensures IsTable(m, t)
    ensures var e := m.frames[t].entries[i];
      var gone := if e.present then {e.base} else {};
      && FramesLeft(m, p, d, i + 1) == FramesLeft(m, p, d, i) - gone
      && RolesLeft(m, p, d, i + 1) == RolesLeft(m, p, d, i) - gone
      && SwapLeft(m, p, d, i + 1) == SwapLeft(m, p, d, i) - {Loc(t, i)}
  {
    assert IsTableFrame(m, t) && GoodTable(m, t);
    var e := m.frames[t].entries[i];
    forall l ensures Past(m, p, d, i + 1, l) <==> Past(m, p, d, i, l) || l == Loc(t, i) {
      if l.table in m.role && m.role[l.table] == TableOf(p, d) { SameTable(m, l.table, t); }
    }
    forall f | f in m.role
      ensures Returned(m, p, d, i + 1, f) <==> Returned(m, p, d, i, f) || (e.present && f == e.base) {
      assert Placed(m, f);
    }
  }

  lemma SameTable(m: Memory, s: nat, t: nat)
    requires WellFormed(m) && s in m.role && t in m.role && m.role[s] == m.role[t] && m.role[t].TableOf?
    ensures s == t
  {
    assert Placed(m, s) && Placed(m, t);
  }

  /** A finished table is given back; an absent one has nothing to give. */
  lemma PassTable(m: Memory, p: nat, d: nat)
    requires WellFormed(m) && p in m.dirs && d < NUM_ENTRIES
    ensures IsTable(m, m.dirs[p])
    ensures var e := m.frames[m.dirs[p]].entries[d];
      var end, gone := (if e.present then NUM_ENTRIES else 0), (if e.present then {e.base} else {});
      && (e.present ==> e.base in m.role && m.role[e.base] == TableOf(p, d))
      && FramesLeft(m, p, d + 1, 0) == FramesLeft(m, p, d, end) - gone
      && RolesLeft(m, p, d + 1, 0) == RolesLeft(m, p, d, end) - gone
      && SwapLeft(m, p, d + 1, 0) == SwapLeft(m, p, d, end)
  {
    assert GoodDir(m, p);
    var e := m.frames[m.dirs[p]].entries[d];
    var end := if e.present then NUM_ENTRIES else 0;
    forall l: Loc | l.index < NUM_ENTRIES ensures Past(m, p, d + 1, 0, l) <==> Past(m, p, d, end, l) {
      if IsTableFrame(m, l.table) { assert Placed(m, l.table); }
    }
    forall l | l in m.disk ensures l.index < NUM_ENTRIES { assert GoodSwap(m, l); }
    forall f | f in m.role
      ensures Returned(m, p, d + 1, 0, f) <==> Returned(m, p, d, end, f) || (e.present && f == e.base) {
      assert Placed(m, f);
      if e.present && m.role[f] == TableOf(p, d) { SameTable(m, f, e.base); }
    }
  }

  /** Removal takes exactly the frames that walks of the process come to, and the swap
      files of its tables. */
  lemma RemovalIsExact(m: Memory, p: nat)
    requires WellFormed(m)
    ensures p !in m.dirs ==> forall f :: !WalksTo(m, p, f)
    ensures p in m.dirs ==> forall f :: f in m.frames ==> (f in WithoutProcess(m, p).frames <==> !WalksTo(m, p, f))
    ensures p in m.dirs ==> forall l :: l in m.disk ==> (l in WithoutProcess(m, p).disk <==> !WalksTo(m, p, l.table))
  {
    OwnedIsRemoved(m, p);
    forall f | f in m.role ensures Owns(m, p, f) <==> WalksTo(m, p, f) { OwnsMeans(m, p, f); }
    forall l | l in m.disk ensures l.table in m.role { assert GoodSwap(m, l); }
  }

  lemma OwnedIsRemoved(m: Memory, p: nat)
    requires WellFormed(m)
    ensures p !in m.dirs ==> forall f :: f in m.frames ==> !Owns(m, p, f)
    ensures p in m.dirs ==> forall f :: f in m.frames ==> (f in WithoutProcess(m, p).frames <==> !Owns(m, p, f))
    ensures p in m.dirs ==> forall l :: l in m.disk ==> (l in WithoutProcess(m, p).disk <==> !Owns(m, p, l.table))
  {
    forall f | f in m.frames ensures p !in m.dirs ==> !Owns(m, p, f) { OwnerHasDirectory(m, p, f); }
    if p in m.dirs {
      forall f | f in m.frames ensures f in WithoutProcess(m, p).frames <==> !Owns(m, p, f) {
        OwnerHasDirectory(m, p, f);
      }
      forall l | l in m.disk ensures l in WithoutProcess(m, p).disk <==> !Owns(m, p, l.table) {
        assert GoodSwap(m, l);
        OwnerHasDirectory(m, p, l.table);
      }
    }
  }

  lemma WithoutProcessPlaced(m: Memory, p: nat, g: nat)
    requires WellFormed(m) && p in m.dirs && g in WithoutProcess(m, p).role
    ensures g in m.role && m.role[g] == WithoutProcess(m, p).role[g] && Placed(WithoutProcess(m, p), g)
  {
    assert Placed(m, g) && GoodDir(m, p);
    match m.role[g]
    case DirOf(q) =>
    case TableOf(q, d) => assert GoodDir(m, q);
    case PageOf(loc) => assert Placed(m, loc.table);
    case Lost =>
  }

  lemma WithoutProcessDir(m: Memory, p: nat, q: nat)
    requires WellFormed(m) && p in m.dirs && q in m.dirs && q != p
    ensures GoodDir(WithoutProcess(m, p), q)
  {
    assert GoodDir(m, p) && GoodDir(m, q);
  }

  lemma WithoutProcessTable(m: Memory, p: nat, t: nat)
    requires WellFormed(m) && p in m.dirs && IsTableFrame(WithoutProcess(m, p), t)
    ensures GoodTable(WithoutProcess(m, p), t) && m.role[t].pid != p
    ensures WithoutProcess(m, p).frames[t] == m.frames[t]
    ensures forall i :: 0 <= i < NUM_ENTRIES && m.frames[t].entries[i].present ==>
      m.frames[t].entries[i].base in WithoutProcess(m, p).frames
      && WithoutProcess(m, p).frames[m.frames[t].entries[i].base] == m.frames[m.frames[t].entries[i].base]
  {
    assert IsTableFrame(m, t) && GoodTable(m, t) && Placed(m, t) && GoodDir(m, p);
  }

  lemma WithoutProcessKeeps(m: Memory, p: nat)
    requires WellFormed(m) && p in m.dirs
    ensures WellFormed(WithoutProcess(m, p))
  {
    var n := WithoutProcess(m, p);
    forall g | g in n.role ensures Placed(n, g) { WithoutProcessPlaced(m, p, g); }
    forall q | q in n.dirs ensures GoodDir(n, q) { WithoutProcessDir(m, p, q); }
    forall t | IsTableFrame(n, t) ensures GoodTable(n, t) { WithoutProcessTable(m, p, t); }
    forall l | l in n.disk ensures GoodSwap(n, l) {
      assert GoodSwap(m, l) && Placed(m, l.table) && GoodDir(m, p);
    }
  }

  /** Removing a process changes no other process's view. */
  lemma WithoutProcessView(m: Memory, p: nat, q: nat, v: nat)
    requires WellFormed(m) && p in m.dirs && WellFormed(WithoutProcess(m, p)) && q in m.dirs && q != p && v < PAGES
    ensures View(WithoutProcess(m, p), q, v) == View(m, q, v)
    ensures Walk(WithoutProcess(m, p), q, v) == Walk(m, q, v)
  {
    var n := WithoutProcess(m, p);
    assert GoodDir(m, p) && GoodDir(m, q) && GoodDir(n, q);
    WalkIsGood(m, q, v);
    WalkIsGood(n, q, v);
    if Walk(m, q, v).Some? { WithoutProcessTable(m, p, Walk(m, q, v).value.table); }
  }
}
