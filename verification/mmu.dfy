/** `ideal_indirection/mmu.c`: reads and writes through the TLB, process creation and
    removal, and the kernel's evictions whenever it is asked for a frame. */
module Mmu {
  import opened ByteValues
  import opened Options
  import opened PageHistory
  import opened PageMemory

  datatype Segment = Segment(start: nat, end: nat, read: bool, write: bool)

  /** `address_in_segmentations` and `find_segment`. */
  function FindSegment(segs: seq<Segment>, va: nat): Option<Segment> {
    if segs == [] then None
    else if segs[0].start <= va < segs[0].end then Some(segs[0])
    else FindSegment(segs[1..], va)
  }

  predicate MayRead(segs: seq<Segment>, va: nat) {
    FindSegment(segs, va).Some? && FindSegment(segs, va).value.read
  }

  predicate MayWrite(segs: seq<Segment>, va: nat) {
    FindSegment(segs, va).Some? && FindSegment(segs, va).value.write
  }

  /** The segments `mmu_add_process` gives a process, in the order of their enum. */
  function InitialSegments(): seq<Segment> {
    [Segment(0xBFFFE000, 0xC07FE000, true, true),
     Segment(0xC07FE000, 0xC07FE000, true, true),
     Segment(0x08072000, 0x08072000, true, true),
     Segment(0x0805A000, 0x08072000, true, true),
     Segment(0x08052000, 0x0805A000, true, true),
     Segment(0x08048000, 0x08052000, true, false),
     Segment(PAGE_SIZE, 3 * PAGE_SIZE, true, true)]
  }

  /** The directory has an entry for an address just when it is below 2^30, so the
      stack segment that every process is given cannot be used. */
  lemma DirectoryReach(va: nat)
    ensures va / 0x100000 < NUM_ENTRIES <==> va < 0x40000000
    ensures FindSegment(InitialSegments(), va).Some? ==>
      (va / 0x100000 < NUM_ENTRIES <==> FindSegment(InitialSegments(), va).value != InitialSegments()[0])
  {
    var segs := InitialSegments();
    FindSegmentIn(segs, va);
  }

  /** The segment found is one of the list and holds the address. */
  lemma {:induction false} FindSegmentIn(segs: seq<Segment>, va: nat)
    ensures FindSegment(segs, va).Some? ==>
      FindSegment(segs, va).value in segs && FindSegment(segs, va).value.start <= va < FindSegment(segs, va).value.end
    ensures FindSegment(segs, va).None? ==> forall s :: s in segs ==> !(s.start <= va < s.end)
  {
    if segs != [] { FindSegmentIn(segs[1..], va); }
  }

  /** The first segment that holds an address decides what may be done there. */
  lemma {:induction false} FirstSegmentDecides(segs: seq<Segment>, va: nat, i: nat)
    requires i < |segs| && segs[i].start <= va < segs[i].end
    requires forall j :: 0 <= j < i ==> !(segs[j].start <= va < segs[j].end)
    ensures MayRead(segs, va) <==> segs[i].read
    ensures MayWrite(segs, va) <==> segs[i].write
  {
    if i > 0 {
      assert !(segs[0].start <= va < segs[0].end);
      FirstSegmentDecides(segs[1..], va, i - 1);
    }
  }

  /** What a new process may write: the stack, data and bss, and the testing pages. It may
      read the text as well. */
  lemma InitialPermissions(va: nat)
    ensures MayWrite(InitialSegments(), va) <==>
      0xBFFFE000 <= va < 0xC07FE000 || 0x08052000 <= va < 0x08072000 || 4096 <= va < 12288
    ensures MayRead(InitialSegments(), va) <==> MayWrite(InitialSegments(), va) || 0x08048000 <= va < 0x08052000
  {
    var segs := InitialSegments();
    FindSegmentIn(segs, va);
    if i :| 0 <= i < |segs| && segs[i].start <= va < segs[i].end {
      assert forall j :: 0 <= j < i ==> !(segs[j].start <= va < segs[j].end);
      FirstSegmentDecides(segs, va, i);
    }
  }

  /** The segments give the permissions of a new process. */
  ghost predicate NewlyPermitted(segs: seq<Segment>) {
    && (forall va: nat :: MayWrite(segs, va) <==>
          0xBFFFE000 <= va < 0xC07FE000 || 0x08052000 <= va < 0x08072000 || 4096 <= va < 12288)
    && (forall va: nat :: MayRead(segs, va) <==> MayWrite(segs, va) || 0x08048000 <= va < 0x08052000)
  }

  lemma NewProcessPermitted()
    ensures NewlyPermitted(InitialSegments())
  {
    forall va: nat
      ensures MayWrite(InitialSegments(), va) <==>
        0xBFFFE000 <= va < 0xC07FE000 || 0x08052000 <= va < 0x08072000 || 4096 <= va < 12288
      ensures MayRead(InitialSegments(), va) <==>
        MayWrite(InitialSegments(), va) || 0x08048000 <= va < 0x08052000 {
      InitialPermissions(va);
    }
  }

  lemma {:induction false} FramesAreBounded(used: set<nat>) returns (b: nat)
    ensures forall f :: f in used ==> f < b
  {
    if used == {} {
      b := 0;
    } else {
      var g :| g in used;
      var rest := FramesAreBounded(used - {g});
      b := if rest <= g then g + 1 else rest;
      forall f | f in used ensures f < b { assert f == g || f in used - {g}; }
    }
  }

  lemma KeptThrough(m: Memory, n: Memory, o: Memory, gone: set<Loc>, more: set<Loc>)
    requires KeepsPresent(m, n, gone) && KeepsPresent(n, o, more)
    ensures KeepsPresent(m, o, gone + more)
  {
    forall l | Present(m, l) && l !in gone + more ensures Present(o, l) { assert Present(n, l); }
  }

  /** How an access ends; `BeyondDirectory` is a permitted one that would index the
      page directory past its last entry. */
  datatype Access = Done | SegmentationFault | BeyondDirectory

  /** The kernel's memory is one field, written through the operations of
      PageMemory; the directory pointers live in it as `memory.dirs`. */
  class Mmu {
    var segmentations: map<nat, seq<Segment>>
    var memory: Memory
    var tlb: map<nat, Loc>
    var currPid: nat
    var numTlbMisses: nat
    var numPageFaults: nat
    var numSegmentationFaults: nat
    /** All creations and writes so far. */
    ghost var history: seq<Act>

    /** Memory and segments are in order, whatever the TLB holds. */
    ghost predicate Stored()
      reads `segmentations, `memory, `history
    {
      Sound(memory, history) && segmentations.Keys == memory.dirs.Keys
    }

    /** The TLB leads where a walk leads, or into a lost table. */
    ghost predicate Settled()
      reads `segmentations, `memory, `tlb, `currPid, `history
    {
      Stored() && Mixed(memory, tlb, currPid)
    }

    ghost predicate Valid()
      reads `segmentations, `memory, `tlb, `currPid, `history
    {
      Stored() && Coherent(memory, tlb, currPid)
    }

    /** What an operation for process `pid` needs: the TLB matters only if it will not
        be flushed. */
    ghost predicate Ready(pid: nat)
      reads `segmentations, `memory, `tlb, `currPid, `history
    {
      Stored() && (pid == currPid ==> Mixed(memory, tlb, currPid))
    }

    lemma ValidIsSettled()
      requires Stored()
      ensures Valid() <==> Settled() && forall v :: Usable(memory, tlb, v)
    {
      CoherentIffUsable(memory, tlb, currPid);
    }

    /** `mmu_create` */
    constructor ()
      ensures Valid() && memory == Memory(map[], map[], map[], map[]) && segmentations == map[]
      ensures tlb == map[] && history == [] && currPid == 0
      ensures numTlbMisses == 0 && numPageFaults == 0 && numSegmentationFaults == 0
    {
      memory := Memory(map[], map[], map[], map[]);
      segmentations, tlb, history := map[], map[], [];
      currPid, numTlbMisses, numPageFaults, numSegmentationFaults := 0, 0, 0, 0;
    }

    /** The kernel takes away the frame of a page. */
    method Evict(loc: Loc)
      requires Stored() && Present(memory, loc)
      modifies `memory
      ensures Stored() && Thins(old(memory), memory) && Absent(memory, loc)
      ensures KeepsPresent(old(memory), memory, {loc})
      ensures (old(Settled()) ==> Settled()) && (old(Valid()) ==> Valid())
    {
      EvictedThins(memory, loc);
      ThinsFollows(memory, Evicted(memory, loc));
      FollowsSound(memory, Evicted(memory, loc), history);
      ValidIsSettled();
      if Mixed(memory, tlb, currPid) { FollowsMixed(memory, Evicted(memory, loc), tlb, currPid); }
      memory := Evicted(memory, loc);
      assert Sound(memory, history);
    }

    /** The kernel makes room by evicting any pages it likes, and hands out some frame
        that is then not in use. */
    method AskKernelForFrame() returns (f: nat, ghost evicted: set<Loc>)
      requires Stored()
      modifies `memory
      ensures Stored() && Thins(old(memory), memory) && f !in memory.frames
      ensures KeepsPresent(old(memory), memory, evicted)
    {
      FollowsReflexive(memory);
      evicted := {};
      var rounds: nat := *;
      while rounds > 0
        invariant Stored() && Thins(old(memory), memory) && KeepsPresent(old(memory), memory, evicted)
      {
        var loc: Loc := *;
        if Present(memory, loc) {
          ghost var previous := memory;
          Evict(loc);
          ThinsTransitive(old(memory), previous, memory);
          KeptThrough(old(memory), previous, memory, evicted, {loc});
          evicted := evicted + {loc};
        }
        rounds := rounds - 1;
      }
      ghost var b := FramesAreBounded(memory.frames.Keys);
      assert b !in memory.frames;
      f :| f !in memory.frames;
    }

    /** `tlb_add_pte`: the cache gains the entry and may drop others. */
    method TlbAdd(v: nat, loc: Loc)
      requires Settled() && currPid in memory.dirs && v < PAGES && WalkOf(memory, currPid, v) == Some(loc)
      modifies `tlb
      ensures Settled() && v in tlb && tlb[v] == loc && (old(Valid()) ==> Valid())
    {
      var kept: set<nat> := *;
      tlb := map w | w in tlb && w in kept :: tlb[w];
      tlb := tlb[v := loc];
    }

    /** A process other than the current one starts with an empty TLB. */
    method SwitchTo(pid: nat)
      requires Ready(pid)
      modifies `tlb, `currPid
      ensures Settled() && currPid == pid && tlb == if pid == old(currPid) then old(tlb) else map[]
      ensures pid != old(currPid) || old(Valid()) ==> Valid()
    {
      if pid != currPid {
        tlb := map[];
        currPid := pid;
      }
    }

    /** A missing page table becomes a fresh one, whose entries are all absent. */
    method NewTable(v: nat, pid: nat) returns (t: nat)
      requires Stored() && pid in memory.dirs && v < PAGES && WalkOf(memory, pid, v).None?
      modifies `memory
      ensures Stored() && Follows(old(memory), memory)
      ensures WalkOf(memory, pid, v) == Some(Loc(t, TableIndex(v)))
      ensures forall i: nat :: i < NUM_ENTRIES ==> Absent(memory, Loc(t, i))
    {
      ghost var evicted;
      t, evicted := AskKernelForFrame();
      assert ThinsAt(old(memory), memory, pid, v);
      ThinsFollows(old(memory), memory);
      InstallTable(v, pid, t, old(memory));
    }

    /** The frame becomes the table. */
    method InstallTable(v: nat, pid: nat, t: nat, ghost before: Memory)
      requires Stored() && pid in memory.dirs && v < PAGES && WalkOf(memory, pid, v).None? && t !in memory.frames
      requires WellFormed(before) && Follows(before, memory)
      modifies `memory
      ensures Stored() && Follows(before, memory)
      ensures WalkOf(memory, pid, v) == Some(Loc(t, TableIndex(v)))
      ensures forall i: nat :: i < NUM_ENTRIES ==> Absent(memory, Loc(t, i))
    {
      WithTableFollows(memory, pid, v, t);
      var n := WithTable(memory, pid, DirIndex(v), t);
      FollowsSound(memory, n, history);
      FollowsTransitive(before, memory, n);
      memory := n;
      assert Sound(memory, history);
    }

    /** The page behind an absent entry is brought in: from swap, or zeros. */
    method NewPage(loc: Loc) returns (ghost evicted: set<Loc>)
      requires Stored() && Absent(memory, loc)
      modifies `memory
      ensures Stored() && Follows(old(memory), memory) && Present(memory, loc)
      ensures KeepsPresent(old(memory), memory, evicted)
      ensures forall l {:trigger Absent(memory, l)} :: Absent(old(memory), l) && l != loc ==> Absent(memory, l)
    {
      var f;
      f, evicted := AskKernelForFrame();
      ThinsFollows(old(memory), memory);
      assert Absent(memory, loc);
      ghost var thinned := memory;
      InstallPage(loc, f);
      FollowsTransitive(old(memory), thinned, memory);
      KeptThrough(old(memory), thinned, memory, evicted, {});
      forall l | Absent(old(memory), l) && l != loc ensures Absent(memory, l) { assert Absent(thinned, l); }
    }

    /** The frame becomes the page. */
    method InstallPage(loc: Loc, f: nat)
      requires Stored() && Absent(memory, loc) && f !in memory.frames
      modifies `memory
      ensures Stored() && Follows(old(memory), memory) && Present(memory, loc)
      ensures KeepsPresent(old(memory), memory, {})
      ensures forall l {:trigger Absent(memory, l)} :: Absent(old(memory), l) && l != loc ==> Absent(memory, l)
    {
      WithPageFollows(memory, loc, f);
      var n := WithPage(memory, loc, f);
      FollowsSound(memory, n, history);
      memory := n;
      assert Sound(memory, history);
    }

    /** The entry for page `v` of process `pid`, from the TLB or by the two-level
        walk, which may add a table. */
    method FindEntry(v: nat, pid: nat) returns (loc: Loc)
      requires Settled() && currPid == pid && pid in memory.dirs && v < PAGES && Usable(memory, tlb, v)
      modifies `memory, `numTlbMisses, `numPageFaults
      ensures Settled() && Follows(old(memory), memory) && (old(Valid()) ==> Valid())
      ensures WalkOf(memory, pid, v) == Some(loc)
      ensures numTlbMisses == old(numTlbMisses) + if v in tlb then 0 else 1
      ensures numPageFaults + Faults(memory, pid, v) == old(numPageFaults) + Faults(old(memory), pid, v)
    {
      FollowsReflexive(memory);
      WalkIsGood(memory, pid, v);
      if v in tlb {
        return tlb[v];
      }
      numTlbMisses := numTlbMisses + 1;
      var pd := memory.dirs[pid];
      var d := DirIndex(v);
      if !memory.frames[pd].entries[d].present {
        numPageFaults := numPageFaults + 1;
        var t := NewTable(v, pid);
        FollowsMixed(old(memory), memory, tlb, currPid);
        return Loc(t, TableIndex(v));
      }
      loc := Loc(memory.frames[pd].entries[d].base, TableIndex(v));
    }

    /** An absent page is faulted in. */
    method BringIn(v: nat, pid: nat, loc: Loc)
      requires Settled() && pid in memory.dirs && v < PAGES && WalkOf(memory, pid, v) == Some(loc)
      modifies `memory, `numPageFaults
      ensures Settled() && Follows(old(memory), memory) && (old(Valid()) ==> Valid())
      ensures WalkOf(memory, pid, v) == Some(loc) && Present(memory, loc)
      ensures numPageFaults == old(numPageFaults) + Faults(old(memory), pid, v)
    {
      WalkIsGood(memory, pid, v);
      if !memory.frames[loc.table].entries[loc.index].present {
        numPageFaults := numPageFaults + 1;
        ghost var evicted := NewPage(loc);
        FollowsMixed(old(memory), memory, tlb, currPid);
        assert FollowsAt(old(memory), memory, pid, v);
      } else {
        FollowsReflexive(memory);
      }
    }

    /** From the TLB probe to the page being in memory, which reads and writes share. */
    method Translate(v: nat, pid: nat) returns (loc: Loc)
      requires Settled() && currPid == pid && pid in memory.dirs && v < PAGES && Usable(memory, tlb, v)
      modifies `memory, `numTlbMisses, `numPageFaults
      ensures Settled() && Follows(old(memory), memory) && (old(Valid()) ==> Valid())
      ensures WalkOf(memory, pid, v) == Some(loc) && Present(memory, loc)
      ensures numTlbMisses == old(numTlbMisses) + if v in tlb then 0 else 1
      ensures numPageFaults == old(numPageFaults) + Faults(old(memory), pid, v)
    {
      loc := FindEntry(v, pid);
      ghost var found := memory;
      BringIn(v, pid, loc);
      FollowsTransitive(old(memory), found, memory);
    }

    /** A read that has passed the permission test. */
    method ReadPermitted(va: nat, pid: nat, n: nat) returns (buffer: seq<Byte>)
      requires Settled() && currPid == pid && pid in memory.dirs && PageOfAddress(va) < PAGES
      requires Offset(va) + n <= PAGE_SIZE && Usable(memory, tlb, PageOfAddress(va))
      modifies `memory, `tlb, `numTlbMisses, `numPageFaults
      ensures Settled() && Follows(old(memory), memory) && (old(Valid()) ==> Valid())
      ensures buffer == LastBytes(history, pid, va, n)
      ensures numTlbMisses == old(numTlbMisses) + if PageOfAddress(va) in old(tlb) then 0 else 1
      ensures numPageFaults == old(numPageFaults) + Faults(old(memory), pid, PageOfAddress(va))
      ensures PageOfAddress(va) in tlb
    {
      var v := PageOfAddress(va);
      var loc := Translate(v, pid);
      ReadsBack(memory, history, pid, va, n);
      var page := memory.frames[memory.frames[loc.table].entries[loc.index].base].bytes;
      assert page == View(memory, pid, v);
      buffer := page[Offset(va)..Offset(va) + n];
      TlbAdd(v, loc);
    }

    /** `mmu_read_from_virtual_address` */
    method ReadFromVirtualAddress(va: nat, pid: nat, n: nat) returns (r: Access, buffer: seq<Byte>)
      requires Ready(pid) && pid in memory.dirs && Offset(va) + n <= PAGE_SIZE
      requires pid == currPid && MayRead(segmentations[pid], va) ==> Usable(memory, tlb, PageOfAddress(va))
      modifies `memory, `tlb, `currPid, `numTlbMisses, `numPageFaults, `numSegmentationFaults
      ensures Settled() && Follows(old(memory), memory) && currPid == pid
      ensures pid != old(currPid) || old(Valid()) ==> Valid()
      ensures r.SegmentationFault? <==> !MayRead(segmentations[pid], va)
      ensures r.BeyondDirectory? <==> MayRead(segmentations[pid], va) && va >= 0x40000000
      ensures r.Done? ==>
        && buffer == LastBytes(history, pid, va, n)
        && numTlbMisses == old(numTlbMisses) + (if pid == old(currPid) && PageOfAddress(va) in old(tlb) then 0 else 1)
        && numPageFaults == old(numPageFaults) + Faults(old(memory), pid, PageOfAddress(va))
        && PageOfAddress(va) in tlb
      ensures !r.Done? ==> memory == old(memory) && numPageFaults == old(numPageFaults)
      ensures !r.Done? ==> numTlbMisses == old(numTlbMisses) + if r.BeyondDirectory? then 1 else 0
      ensures numSegmentationFaults == old(numSegmentationFaults) + if r.SegmentationFault? then 1 else 0
    {
      FollowsReflexive(memory);
      SwitchTo(pid);
      if !MayRead(segmentations[pid], va) {
        numSegmentationFaults := numSegmentationFaults + 1;
        return SegmentationFault, [];
      }
      if PageOfAddress(va) >= PAGES {
        numTlbMisses := numTlbMisses + 1;
        return BeyondDirectory, [];
      }
      buffer := ReadPermitted(va, pid, n);
      r := Done;
    }

    /** The copy into the page's frame. */
    method StoreBytes(va: nat, pid: nat, loc: Loc, buffer: seq<Byte>)
      requires Settled() && currPid == pid && pid in memory.dirs && PageOfAddress(va) < PAGES
      requires Offset(va) + |buffer| <= PAGE_SIZE
      requires WalkOf(memory, pid, PageOfAddress(va)) == Some(loc) && Present(memory, loc)
      modifies `memory, `history
      ensures Settled() && (old(Valid()) ==> Valid())
      ensures history == old(history) + [Wrote(pid, va, buffer)] && memory.dirs == old(memory).dirs
      ensures WalkOf(memory, pid, PageOfAddress(va)) == Some(loc)
    {
      var n := Store(memory, loc, Offset(va), buffer);
      StoreWrites(memory, pid, va, buffer, loc);
      StoreSound(memory, n, pid, va, buffer, history);
      StoreMixed(memory, n, pid, va, buffer, tlb, currPid);
      assert WroteAt(memory, n, pid, va, buffer, pid, PageOfAddress(va));
      memory, history := n, history + [Wrote(pid, va, buffer)];
      assert Sound(memory, history) && Mixed(memory, tlb, currPid);
    }

    /** The copy, and the entry's way into the TLB. */
    method StoreAndCache(va: nat, pid: nat, loc: Loc, buffer: seq<Byte>)
      requires Settled() && currPid == pid && pid in memory.dirs && PageOfAddress(va) < PAGES
      requires Offset(va) + |buffer| <= PAGE_SIZE
      requires WalkOf(memory, pid, PageOfAddress(va)) == Some(loc) && Present(memory, loc)
      modifies `memory, `tlb, `history
      ensures Settled() && (old(Valid()) ==> Valid())
      ensures history == old(history) + [Wrote(pid, va, buffer)] && memory.dirs == old(memory).dirs
      ensures PageOfAddress(va) in tlb
    {
      StoreBytes(va, pid, loc, buffer);
      TlbAdd(PageOfAddress(va), loc);
    }

    /** A write that has passed the permission test. */
    method WritePermitted(va: nat, pid: nat, buffer: seq<Byte>)
      requires Settled() && currPid == pid && pid in memory.dirs && PageOfAddress(va) < PAGES
      requires Offset(va) + |buffer| <= PAGE_SIZE && Usable(memory, tlb, PageOfAddress(va))
      modifies `memory, `tlb, `numTlbMisses, `numPageFaults, `history
      ensures Settled() && (old(Valid()) ==> Valid())
      ensures memory.dirs.Keys == old(memory).dirs.Keys && history == old(history) + [Wrote(pid, va, buffer)]
      ensures numTlbMisses == old(numTlbMisses) + if PageOfAddress(va) in old(tlb) then 0 else 1
      ensures numPageFaults == old(numPageFaults) + Faults(old(memory), pid, PageOfAddress(va))
      ensures PageOfAddress(va) in tlb
    {
      var loc := Translate(PageOfAddress(va), pid);
      StoreAndCache(va, pid, loc, buffer);
    }

    /** `mmu_write_to_virtual_address` */
    method WriteToVirtualAddress(va: nat, pid: nat, buffer: seq<Byte>) returns (r: Access)
      requires Ready(pid) && pid in memory.dirs && Offset(va) + |buffer| <= PAGE_SIZE
      requires pid == currPid && MayWrite(segmentations[pid], va) ==> Usable(memory, tlb, PageOfAddress(va))
      modifies `memory, `tlb, `currPid, `numTlbMisses, `numPageFaults, `numSegmentationFaults, `history
      ensures Settled() && currPid == pid && memory.dirs.Keys == old(memory).dirs.Keys
      ensures pid != old(currPid) || old(Valid()) ==> Valid()
      ensures r.SegmentationFault? <==> !MayWrite(segmentations[pid], va)
      ensures r.BeyondDirectory? <==> MayWrite(segmentations[pid], va) && va >= 0x40000000
      ensures r.Done? ==>
        && history == old(history) + [Wrote(pid, va, buffer)]
        && numTlbMisses == old(numTlbMisses) + (if pid == old(currPid) && PageOfAddress(va) in old(tlb) then 0 else 1)
        && numPageFaults == old(numPageFaults) + Faults(old(memory), pid, PageOfAddress(va))
        && PageOfAddress(va) in tlb
      ensures !r.Done? ==>
        history == old(history) && memory == old(memory) && numPageFaults == old(numPageFaults)
      ensures !r.Done? ==> numTlbMisses == old(numTlbMisses) + if r.BeyondDirectory? then 1 else 0
      ensures numSegmentationFaults == old(numSegmentationFaults) + if r.SegmentationFault? then 1 else 0
    {
      SwitchTo(pid);
      if !MayWrite(segmentations[pid], va) {
        numSegmentationFaults := numSegmentationFaults + 1;
        return SegmentationFault;
      }
      if PageOfAddress(va) >= PAGES {
        numTlbMisses := numTlbMisses + 1;
        return BeyondDirectory;
      }
      WritePermitted(va, pid, buffer);
      r := Done;
    }

    /** A fresh directory, with the segments of a new process. What the process cached
        before is stale. */
    method NewDirectory(pid: nat)
      requires Stored()
      modifies `memory, `segmentations, `history
      ensures Stored() && FollowsOthers(old(memory), memory, pid)
      ensures memory.dirs.Keys == old(memory).dirs.Keys + {pid} && WalkOf(memory, pid, 0).None?
      ensures segmentations == old(segmentations)[pid := InitialSegments()]
      ensures history == old(history) + [Created(pid)]
      ensures Loses(old(memory), memory) <==> pid in old(memory).dirs
      ensures Mixed(old(memory), tlb, pid) ==> Stale(memory, tlb)
    {
      var f, evicted := AskKernelForFrame();
      ThinsFollows(old(memory), memory);
      InstallDirectory(pid, f, old(memory));
    }

    /** The frame becomes the directory. */
    method InstallDirectory(pid: nat, f: nat, ghost before: Memory)
      requires Stored() && f !in memory.frames && WellFormed(before) && Follows(before, memory)
      modifies `memory, `segmentations, `history
      ensures Stored() && FollowsOthers(before, memory, pid)
      ensures memory.dirs.Keys == old(memory).dirs.Keys + {pid} && WalkOf(memory, pid, 0).None?
      ensures segmentations == old(segmentations)[pid := InitialSegments()]
      ensures history == old(history) + [Created(pid)]
      ensures Loses(before, memory) <==> pid in before.dirs
      ensures Mixed(before, tlb, pid) ==> Stale(memory, tlb)
    {
      var n := WithDir(memory, pid, f);
      WithDirSound(memory, pid, f, history);
      WithDirFollows(before, memory, pid, f, tlb);
      memory, history, segmentations := n, history + [Created(pid)], segmentations[pid := InitialSegments()];
      assert Sound(memory, history);
    }

    /** The first table, with the two pages of the testing segment, of which the kernel
        may take the first away again when it is asked for the second. */
    method NewFirstTable(pid: nat) returns (ghost evicted: set<Loc>)
      requires Stored() && pid in memory.dirs && WalkOf(memory, pid, 0).None?
      modifies `memory
      ensures Stored() && Follows(old(memory), memory)
      ensures TestingPages(memory, pid, evicted)
    {
      ghost var before := memory;
      var t := NewTable(0, pid);
      evicted := {};
      FirstPagesStart(memory, pid, t);
      for i := 1 to 3
        invariant Stored() && Follows(before, memory)
        invariant FirstPages(memory, pid, t, i, evicted)
        invariant i == 3 ==> Present(memory, Loc(t, 2))
      {
        ghost var previous := memory;
        assert FirstPage(memory, pid, t, i, evicted, i);
        ghost var gone := NewPage(Loc(t, i));
        FollowsTransitive(before, previous, memory);
        FirstPagesStep(previous, memory, pid, t, i, evicted, gone);
        evicted := evicted + gone;
      }
      FirstPagesDone(memory, pid, t, evicted);
    }

    /** The rest of `mmu_add_process`; `before` is memory at its start. */
    method FillDirectory(pid: nat, ghost before: Memory) returns (ghost evicted: set<Loc>)
      requires Stored() && pid in memory.dirs && WalkOf(memory, pid, 0).None?
      requires WellFormed(before) && FollowsOthers(before, memory, pid) && Mixed(before, tlb, currPid)
      requires Mixed(before, tlb, pid) ==> Stale(memory, tlb)
      modifies `memory
      ensures Settled() && FollowsOthers(before, memory, pid) && memory.dirs.Keys == old(memory).dirs.Keys
      ensures Loses(before, memory) <==> Loses(before, old(memory))
      ensures Valid() <==> if pid == currPid then tlb == map[] else Coherent(before, tlb, currPid)
      ensures TestingPages(memory, pid, evicted)
    {
      evicted := NewFirstTable(pid);
      AddedCoherentIff(before, old(memory), memory, pid, tlb, currPid);
    }

    /** `mmu_add_process`. A process that is there already loses its old directory and
        all it leads to; if it is the current one, all that the TLB holds is stale. */
    method AddProcess(pid: nat) returns (ghost evicted: set<Loc>)
      requires Settled()
      modifies `memory, `segmentations, `history
      ensures Settled() && FollowsOthers(old(memory), memory, pid)
      ensures Loses(old(memory), memory) <==> pid in old(memory).dirs
      ensures Valid() <==> if pid == currPid then tlb == map[] else old(Valid())
      ensures memory.dirs.Keys == old(memory).dirs.Keys + {pid}
      ensures TestingPages(memory, pid, evicted)
      ensures segmentations == old(segmentations)[pid := InitialSegments()] && NewlyPermitted(segmentations[pid])
      ensures history == old(history) + [Created(pid)]
    {
      NewProcessPermitted();
      NewDirectory(pid);
      evicted := FillDirectory(pid, old(memory));
    }

    /** The inner loop of removal: the pages of table `t`, and their swap files. */
    method ReturnPages(ghost m: Memory, pid: nat, d: nat, t: nat)
      requires WellFormed(m) && d < NUM_ENTRIES && t in m.role && m.role[t] == TableOf(pid, d)
      requires memory == Passing(m, pid, d, 0)
      modifies `memory
      ensures memory == Passing(m, pid, d, NUM_ENTRIES)
    {
      for i := 0 to NUM_ENTRIES
        invariant memory == Passing(m, pid, d, i)
      {
        PassEntry(m, pid, d, i, t);
        var pte := memory.frames[t].entries[i];
        if pte.present {
          memory := memory.(frames := memory.frames - {pte.base}, role := memory.role - {pte.base});
        }
        memory := memory.(disk := memory.disk - {Loc(t, i)});
      }
    }

    /** The outer loop of removal: the tables of directory `pd`. */
    method ReturnTables(ghost m: Memory, pid: nat, pd: nat)
      requires WellFormed(m) && pid in m.dirs && m.dirs[pid] == pd && memory == m
      modifies `memory
      ensures memory == Passing(m, pid, NUM_ENTRIES, 0)
    {
      PassNothing(m, pid);
      assert GoodDir(m, pid);
      for d := 0 to NUM_ENTRIES
        invariant memory == Passing(m, pid, d, 0)
      {
        PassTable(m, pid, d);
        var pde := memory.frames[pd].entries[d];
        if pde.present {
          ReturnPages(m, pid, d, pde.base);
          memory := memory.(frames := memory.frames - {pde.base}, role := memory.role - {pde.base});
        }
      }
    }

    /** `mmu_remove_process`: every frame and swap file of the process goes back, and
        nothing of anyone else's. The current process also loses what the TLB holds,
        stale or not. */
    method RemoveProcess(pid: nat)
      requires Stored() && (pid != currPid ==> Mixed(memory, tlb, currPid))
      modifies `memory, `segmentations, `tlb
      ensures Settled() && (Valid() <==> pid == currPid || old(Valid()))
      ensures FollowsOthers(old(memory), memory, pid) && segmentations == old(segmentations) - {pid}
      ensures memory.dirs == old(memory).dirs - {pid}
      ensures forall f :: f in old(memory).frames ==> (f in memory.frames <==> !WalksTo(old(memory), pid, f))
      ensures forall l :: l in old(memory).disk ==> (l in memory.disk <==> !WalksTo(old(memory), pid, l.table))
    {
      RemovalIsExact(memory, pid);
      ReturnAll(pid);
      segmentations := segmentations - {pid};
      if currPid == pid {
        tlb := map[];
      } else {
        FollowsOthersMixed(old(memory), memory, pid, tlb, currPid);
      }
      assert Sound(memory, history) && Mixed(memory, tlb, currPid);
    }

    /** The two loops, and the directory itself. */
    method ReturnAll(pid: nat)
      requires Sound(memory, history)
      modifies `memory
      ensures Sound(memory, history) && FollowsOthers(old(memory), memory, pid)
      ensures memory.dirs == old(memory).dirs - {pid}
      ensures memory == if pid in old(memory).dirs then WithoutProcess(old(memory), pid) else old(memory)
    {
      ghost var before := memory;
      if pid in memory.dirs {
        var pd := memory.dirs[pid];
        ReturnTables(before, pid, pd);
        memory := Memory(memory.dirs - {pid}, memory.frames - {pd}, memory.disk, memory.role - {pd});
        WithoutProcessFollows(before, pid);
        FewerSound(before, memory, pid, history);
      } else {
        FollowsReflexive(memory);
      }
    }
  }

  /** A process reads a byte, and the TLB holds its page. */
  method ReadFirstByte() returns (mmu: Mmu)
    ensures fresh(mmu) && mmu.Valid() && mmu.currPid == 0 && mmu.tlb != map[] && 0 in mmu.memory.dirs
  {
    mmu := new Mmu();
    ghost var evicted := mmu.AddProcess(0);
    assert MayWrite(mmu.segmentations[0], PAGE_SIZE);
    var r, buffer := mmu.ReadFromVirtualAddress(PAGE_SIZE, 0, 1);
    assert PageOfAddress(PAGE_SIZE) in mmu.tlb;
  }

  /** After a second `mmu_add_process` for the current process a frame is stranded, and
      coherence fails as soon as the TLB holds anything of the process. */
  method AddTwice() returns (mmu: Mmu, ghost lost: nat)
    ensures fresh(mmu) && mmu.Settled() && !mmu.Valid()
    ensures Stranded(mmu.memory, lost)
  {
    mmu := ReadFirstByte();
    ghost var before := mmu.memory;
    ghost var evicted := mmu.AddProcess(0);
    assert Loses(before, mmu.memory);
    lost :| Stranded(mmu.memory, lost) && !Stranded(before, lost);
  }

  /** A new process that writes into its text gets one segmentation fault, and nothing is
      written. */
  method WriteText(pid: nat, va: nat, buffer: seq<Byte>) returns (mmu: Mmu, r: Access)
    requires 0x08048000 <= va < 0x08052000 && Offset(va) + |buffer| <= PAGE_SIZE
    ensures r == SegmentationFault && mmu.numSegmentationFaults == 1 && mmu.history == [Created(pid)]
  {
    mmu := new Mmu();
    ghost var evicted := mmu.AddProcess(pid);
    r := mmu.WriteToVirtualAddress(va, pid, buffer);
  }
}
