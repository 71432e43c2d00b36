/** One role per frame, identity mapping of the kernel's own frames, private
    mapped pages and disjoint heap blocks: kept by every operation. */
module Ownership {
  import opened Options
  import opened Machine
  import opened Paging
  import opened PagingInvariants
  import opened Mapping

  /** The parts of Sound beyond Structure look at tables, roles and the heap only. */
  lemma SoundFrame(m: Mach, m': Mach)
    requires Sound(m) && Structure(m')
    requires m'.kernelDir == m.kernelDir && m'.blocks == m.blocks && m'.next == m.next && m'.end == m.end
    requires forall f: FrameNo :: f in m.role && m.role[f] != Page ==> f in m'.role && m'.role[f] == m.role[f]
    requires forall f: FrameNo :: f in m'.role && (m'.role[f].Mapped? || m'.role[f].Table?) ==>
      f in m.role && m'.role[f] == m.role[f]
    requires forall t: FrameNo :: IsTable(m, t) ==> m'.mem[t] == m.mem[t]
    requires m'.mem[m.kernelDir] == m.mem[m.kernelDir]
    ensures Sound(m')
  {
    SlotTable(m, m.kernelDir, 0);
    forall j: SlotNo ensures m'.mem[LowTable(m')][j] == LowEntry(m', j) {
      assert m.mem[LowTable(m)][j] == LowEntry(m, j);
    }
    forall t: FrameNo, j: SlotNo | IsTable(m', t) && t != LowTable(m') ensures PageOk(m', t, j) {
      assert PageOk(m, t, j);
    }
  }

  lemma AllocKeepsSound(m: Mach, role: Role)
    requires Sound(m) && AllocFrame(m, role).Some? && (role == Page || role == Heap)
    ensures Sound(AllocFrame(m, role).value.0)
  {
    AllocIsFresh(m, role);
    AllocKeepsStructure(m, role);
    SoundFrame(m, AllocFrame(m, role).value.0);
  }

  /** Moving the bump pointer touches no page table. */
  lemma OnlyHeapChanges(m: Mach, m': Mach)
    requires Structure(m) && Window(m) && Pages(m)
    requires m' == m.(next := m'.next, end := m'.end, heapPages := m'.heapPages, blocks := m'.blocks)
    ensures Structure(m') && Window(m') && Pages(m')
  {
    StructureFrame(m, m');
    forall j: SlotNo ensures m'.mem[LowTable(m')][j] == LowEntry(m', j) {
      assert m.mem[LowTable(m)][j] == LowEntry(m, j);
    }
    forall t: FrameNo, j: SlotNo | IsTable(m', t) && t != LowTable(m') ensures PageOk(m', t, j) {
      assert PageOk(m, t, j);
    }
  }

  lemma HeapPageKeepsSound(m: Mach)
    requires Sound(m) && HeapPage(m).Some?
    ensures Sound(HeapPage(m).value) && HeapPage(m).value.next + PAGE == HeapPage(m).value.end
    ensures HeapPage(m).value.blocks == m.blocks
  {
    hide AllocFrame, Window, Pages, Slots, Tables;
    AllocIsFresh(m, Heap);
    AllocKeepsSound(m, Heap);
    OnlyHeapChanges(AllocFrame(m, Heap).value.0, HeapPage(m).value);
  }

  lemma HeapForKeepsSound(m: Mach, bytes: Word)
    requires Sound(m) && bytes <= PAGE && HeapFor(m, bytes).Some?
    ensures Sound(HeapFor(m, bytes).value)
    ensures HeapFor(m, bytes).value.next + bytes <= HeapFor(m, bytes).value.end < WORD_LIMIT
  {
    if Wrap(m.next + bytes) > m.end { HeapPageKeepsSound(m); }
  }

  lemma BumpKeepsBlocks(m: Mach, bytes: Word, m': Mach)
    requires HeapBounds(m) && Blocks(m) && m.next + bytes <= m.end
    requires m' == m.(next := m.next + bytes, blocks := m.blocks + [Block(m.end / PAGE - 1, m.next, bytes)])
    ensures HeapBounds(m') && Blocks(m')
  {
    var b := Block(m.end / PAGE - 1, m.next, bytes);
    forall i | 0 <= i < |m.blocks| ensures Disjoint(m.blocks[i], b) {
      assert Inside(m.blocks[i]);
    }
  }

  /** kmalloc keeps the invariant for requests of at most a page. */
  lemma KmallocKeepsSound(m: Mach, bytes: Word)
    requires Sound(m) && bytes <= PAGE && Kmalloc(m, bytes).Some?
    ensures Sound(Kmalloc(m, bytes).value.0)
  {
    hide HeapFor, Structure, Window, Pages, HeapBounds, Blocks;
    HeapForKeepsSound(m, bytes);
    var m1 := HeapFor(m, bytes).value;
    BumpKeepsBlocks(m1, bytes, Kmalloc(m, bytes).value.0);
    OnlyHeapChanges(m1, Kmalloc(m, bytes).value.0);
  }

  /** Where kmalloc puts a block of at most a page: at the next free byte while it
      fits, else at the start of the lowest clear frame, which becomes the heap page. */
  lemma KmallocPointer(m: Mach, bytes: Word)
    requires Sound(m) && bytes <= PAGE
    ensures Kmalloc(m, bytes).Some? <==> m.next + bytes <= m.end || exists f: nat :: f < WINDOW && f !in m.used
    ensures Kmalloc(m, bytes).Some? ==>
      var (m', p) := Kmalloc(m, bytes).value;
      && m'.next == p + bytes && m'.blocks == m.blocks + [Block(m'.end / PAGE - 1, p, bytes)]
      && (if m.next + bytes <= m.end then p == m.next && m'.used == m.used && m'.mem == m.mem && m'.end == m.end
          else
            && p % PAGE == 0 && p / PAGE !in m.used && (forall g: nat :: g < p / PAGE ==> g in m.used)
            && m'.used == m.used + {p / PAGE} && m'.end == p + PAGE)
  {
    hide Slots, Tables, LowShared, Window, Pages, Blocks, HeapPage, Kmalloc, AllocFrame;
    if m.next + bytes <= m.end {
      KmallocFits(m, bytes);
    } else {
      HeapPageTakes(m);
      KmallocMoves(m, bytes);
    }
  }

  lemma KmallocFits(m: Mach, bytes: Word)
    requires HeapBounds(m) && m.next + bytes <= m.end
    ensures Kmalloc(m, bytes) == Some((m.(next := m.next + bytes,
      blocks := m.blocks + [Block(m.end / PAGE - 1, m.next, bytes)]), m.next))
  {
  }

  lemma KmallocMoves(m: Mach, bytes: Word)
    requires HeapBounds(m) && bytes <= PAGE && m.next + bytes > m.end
    requires HeapPage(m).Some? ==> HeapPage(m).value.next + 2 * PAGE < WORD_LIMIT
    ensures Kmalloc(m, bytes) == match HeapPage(m)
      case Some(m1) => Some((m1.(next := m1.next + bytes,
        blocks := m1.blocks + [Block(m1.end / PAGE - 1, m1.next, bytes)]), m1.next))
      case None => None
  {
    hide HeapPage;
  }

  lemma HeapPageTakes(m: Mach)
    requires Owned(m)
    ensures HeapPage(m).Some? <==> exists f: nat :: f < WINDOW && f !in m.used
    ensures HeapPage(m).Some? ==>
      var m' := HeapPage(m).value; var f := m'.next / PAGE;
      && m'.next % PAGE == 0 && m'.end == m'.next + PAGE && m'.blocks == m.blocks && m'.next + 2 * PAGE < WORD_LIMIT
      && f !in m.used && (forall g: nat :: g < f ==> g in m.used) && m'.used == m.used + {f}
  {
    hide AllocFrame, Owned;
    AllocIsLowest(m, Heap);
    if AllocFrame(m, Heap).Some? {
      AllocIsFresh(m, Heap);
      PageBounds(AllocFrame(m, Heap).value.1);
    }
  }

  lemma PageBounds(f: FrameNo)
    ensures f * PAGE / PAGE == f && f * PAGE % PAGE == 0
  {
  }

  /** Two requests that fit in the page are next to each other. */
  lemma SuccessiveBlocks(m: Mach, a: Word, b: Word)
    requires Sound(m) && m.next + a + b <= m.end
    ensures Kmalloc(m, a).Some? && Kmalloc(Kmalloc(m, a).value.0, b).Some?
    ensures Kmalloc(m, a).value.1 == m.next
    ensures Kmalloc(Kmalloc(m, a).value.0, b).value.1 == m.next + a
  {
    KmallocPointer(m, a);
    KmallocKeepsSound(m, a);
    KmallocPointer(Kmalloc(m, a).value.0, b);
  }

  /** A block lies inside its heap page exactly when the request is at most a page. */
  lemma KmallocInsidePage(m: Mach, bytes: Word)
    requires Sound(m) && Kmalloc(m, bytes).Some?
    ensures var (m', p) := Kmalloc(m, bytes).value;
      var b := m'.blocks[|m.blocks|];
      m'.blocks == m.blocks + [b] && b.addr == p && b.len == bytes && (Inside(b) <==> bytes <= PAGE)
  {
    if Wrap(m.next + bytes) > m.end { HeapPageKeepsSound(m); }
  }

  /** One byte more than a page does not fit. */
  lemma BlockTooLong(m: Mach)
    requires Sound(m) && Kmalloc(m, PAGE + 1).Some?
    ensures var b := Kmalloc(m, PAGE + 1).value.0.blocks[|m.blocks|]; b.len == 4097 && !Inside(b)
  {
    KmallocInsidePage(m, PAGE + 1);
  }

  lemma NewDirectoryKeepsSound(m: Mach, src: FrameNo)
    requires Sound(m) && IsDir(m, src) && NewDirectory(m, src).Some?
    ensures Sound(NewDirectory(m, src).value.0)
  {
    AllocIsFresh(m, Page);
    NewDirectoryKeepsStructure(m, src);
    SoundFrame(m, NewDirectory(m, src).value.0);
  }

  /** Overwriting a page, mapped or not, leaves the kernel's structures alone. */
  lemma WriteKeepsSound(m: Mach, p: FrameNo, data: Frame)
    requires Sound(m) && p in m.role && (m.role[p] == Page || m.role[p].Mapped?)
    ensures Sound(m.(mem := m.mem[p := data]))
  {
    StructureFrame(m, m.(mem := m.mem[p := data]));
    SoundFrame(m, m.(mem := m.mem[p := data]));
  }

  /** The table for an address above the first slot is not the shared first table. */
  lemma HighTable(m: Mach, dir: FrameNo, virt: Word)
    requires Structure(m) && IsDir(m, dir) && virt >= SLOT_SPAN && ObtainTable(m, dir, SlotOf(virt)).Some?
    ensures var (m1, t) := ObtainTable(m, dir, SlotOf(virt)).value;
      && t != LowTable(m) && IsTable(m1, t) && m1.role[t].slot == SlotOf(virt) && IsTable(m, LowTable(m))
      && Masked(m.mem[dir][0]) == LowTable(m) * PAGE
  {
    ObtainedTable(m, dir, SlotOf(virt));
    SlotTable(m, dir, 0);
    SlotTable(m, m.kernelDir, 0);
    assert SlotOk(m, dir, 0) && SlotOk(m, dir, SlotOf(virt));
  }

  /** A fresh frame is still identity mapped, so mapPage removes that entry. */
  lemma FreshIdentity(m: Mach, dir: FrameNo, p: FrameNo, mem: Memory)
    requires Sound(m) && p in m.role && !m.role[p].Mapped?
    requires mem[LowTable(m)] == m.mem[LowTable(m)] && Masked(mem[dir][0]) == LowTable(m) * PAGE
    ensures Unmap(mem, dir, p * PAGE) == Store(mem, LowTable(m), p, 0)
  {
    assert 0 < p < FREE_TOP;
    assert m.mem[LowTable(m)][p] == LowEntry(m, p);
    assert SlotOf(p * PAGE) == 0 && IndexOf(p * PAGE) == p;
    assert TableOf(mem, dir, 0) == LowTable(m);
  }

  /** The state after mapping a frame whose identity entry is removed from table `low`. */
  function MappedAt(m1: Mach, dir: FrameNo, t: FrameNo, low: FrameNo, p: FrameNo, virt: Word): Mach
    requires p < WINDOW
  {
    m1.(mem := Store(Install(m1.mem, dir, t, virt, p * PAGE + 3), low, p, 0),
        role := m1.role[p := Mapped(t, IndexOf(virt))])
  }

  lemma MapFreshValue(m: Mach, dir: FrameNo, p: FrameNo, virt: Word, m1: Mach, t: FrameNo, low: FrameNo)
    requires ObtainTable(m, dir, SlotOf(virt)) == Some((m1, t))
    requires p < WINDOW && t != dir && low != dir
    requires Unmap(Install(m1.mem, dir, t, virt, p * PAGE + 3), dir, p * PAGE)
      == Store(Install(m1.mem, dir, t, virt, p * PAGE + 3), low, p, 0)
    ensures MapFresh(m, dir, p, virt) == Some(MappedAt(m1, dir, t, low, p, virt))
  {
    hide ObtainTable, Unmap, SlotOf, IndexOf, Entry;
    EntryFields(p * PAGE, false, true);
    LowByteOf(t, 3);
    FrameOf(t, 0);
    var mem1 := Install(m1.mem, dir, t, virt, p * PAGE + 3);
    var mem := Store(mem1, low, p, 0);
    assert mem1[dir][SlotOf(virt)] == t * PAGE + 3;
    assert mem[dir][SlotOf(virt)] == t * PAGE + 3;
    assert TableOf(mem, dir, SlotOf(virt)) == t;
    assert MapPage(m, dir, p * PAGE, virt, false, true) == Some(m1.(mem := mem));
  }

  /** What mapping a fresh frame writes: its entry, the slot, and its identity entry. */
  lemma MapFreshWrites(m: Mach, dir: FrameNo, p: FrameNo, virt: Word)
    requires Sound(m) && IsDir(m, dir) && p in m.role && m.role[p] == Page && virt >= SLOT_SPAN
    requires ObtainTable(m, dir, SlotOf(virt)).Some?
    ensures p < FREE_TOP
    ensures var (m1, t) := ObtainTable(m, dir, SlotOf(virt)).value;
      MapFresh(m, dir, p, virt) == Some(MappedAt(m1, dir, t, LowTable(m), p, virt))
  {
    var (m1, t) := ObtainTable(m, dir, SlotOf(virt)).value;
    ObtainedTable(m, dir, SlotOf(virt));
    HighTable(m, dir, virt);
    FreshIdentity(m, dir, p, Install(m1.mem, dir, t, virt, p * PAGE + 3));
    MapFreshValue(m, dir, p, virt, m1, t, LowTable(m));
  }

  /** `m1` is `m`, perhaps with a fresh zeroed table `t`; `t` is not the first table. */
  ghost predicate TableReady(m: Mach, m1: Mach, dir: FrameNo, t: FrameNo) {
    && t != LowTable(m) && t != dir && dir != LowTable(m) && m1.kernelDir == m.kernelDir
    && (m1 == m || (t !in m.role && m1.mem == m.mem[t := ZeroFrame()]))
    && (forall f: FrameNo :: f in m.role ==> f in m1.role && m1.role[f] == m.role[f])
    && (forall f: FrameNo :: f in m1.role && f != t ==> f in m.role)
    && IsTable(m1, t)
    && m1.next == m.next && m1.end == m.end && m1.blocks == m.blocks
  }

  lemma ObtainReady(m: Mach, dir: FrameNo, virt: Word)
    requires Structure(m) && IsDir(m, dir) && virt >= SLOT_SPAN && ObtainTable(m, dir, SlotOf(virt)).Some?
    ensures var (m1, t) := ObtainTable(m, dir, SlotOf(virt)).value;
      TableReady(m, m1, dir, t) && IsTable(m, LowTable(m)) && m1.role[t].slot == SlotOf(virt)
  {
    ObtainedTable(m, dir, SlotOf(virt));
    HighTable(m, dir, virt);
  }

  lemma MappedKeepsWindow(m: Mach, m1: Mach, dir: FrameNo, t: FrameNo, p: FrameNo, virt: Word)
    requires Window(m) && TableReady(m, m1, dir, t)
    requires p < FREE_TOP && LowTable(m) != m.kernelDir && t != m.kernelDir && LowTable(m) in m.role
    requires dir == m.kernelDir ==> SlotOf(virt) != 0
    ensures LowTable(MappedAt(m1, dir, t, LowTable(m), p, virt)) == LowTable(m)
    ensures Window(MappedAt(m1, dir, t, LowTable(m), p, virt))
  {
    var m' := MappedAt(m1, dir, t, LowTable(m), p, virt);
    assert m'.mem[LowTable(m)] == m.mem[LowTable(m)][p := 0];
    forall j: SlotNo ensures m'.mem[LowTable(m')][j] == LowEntry(m', j) {
      assert m.mem[LowTable(m)][j] == LowEntry(m, j);
    }
  }

  lemma MappedKeepsPages(m: Mach, m1: Mach, dir: FrameNo, t: FrameNo, p: FrameNo, virt: Word)
    requires Pages(m) && TableReady(m, m1, dir, t)
    requires p < FREE_TOP && p in m.role && m.role[p] == Page && IsDir(m, dir)
    requires LowTable(MappedAt(m1, dir, t, LowTable(m), p, virt)) == LowTable(m)
    ensures Pages(MappedAt(m1, dir, t, LowTable(m), p, virt))
  {
    var m' := MappedAt(m1, dir, t, LowTable(m), p, virt);
    forall u: FrameNo, j: SlotNo | IsTable(m', u) && u != LowTable(m') ensures PageOk(m', u, j) {
      assert m'.mem[u] == if u == t then m1.mem[t][IndexOf(virt) := p * PAGE + 3] else m.mem[u];
      if u in m.role { assert PageOk(m, u, j); }
    }
  }

  lemma MappedKeepsHeap(m: Mach, m1: Mach, dir: FrameNo, t: FrameNo, p: FrameNo, virt: Word)
    requires HeapBounds(m) && Blocks(m) && TableReady(m, m1, dir, t)
    requires p < FREE_TOP && p in m.role && m.role[p] == Page
    ensures HeapBounds(MappedAt(m1, dir, t, LowTable(m), p, virt))
    ensures Blocks(MappedAt(m1, dir, t, LowTable(m), p, virt))
  {
  }

  lemma MapFreshKeepsSound(m: Mach, dir: FrameNo, p: FrameNo, virt: Word)
    requires Sound(m) && IsDir(m, dir) && p in m.role && m.role[p] == Page && virt >= SLOT_SPAN
    requires ObtainTable(m, dir, SlotOf(virt)).Some?
    ensures Sound(MapFresh(m, dir, p, virt).value)
  {
    var (m1, t) := ObtainTable(m, dir, SlotOf(virt)).value;
    MapFreshWrites(m, dir, p, virt);
    MapFreshKeepsStructure(m, dir, p, virt);
    ObtainReady(m, dir, virt);
    assert IsDir(m, m.kernelDir) && t != m.kernelDir;
    MappedKeepsWindow(m, m1, dir, t, p, virt);
    MappedKeepsPages(m, m1, dir, t, p, virt);
    MappedKeepsHeap(m, m1, dir, t, p, virt);
  }

  /** The half-built clone: a directory with an empty stack slot and a fresh page. */
  lemma CopyStackKeepsSound(m: Mach, src: FrameNo)
    requires Sound(m) && IsDir(m, src) && CopyStack(m, src).Some?
    ensures var (m', d, p) := CopyStack(m, src).value;
      && Sound(m') && IsDir(m', d) && d !in m.role && p !in m.role && p in m'.role && m'.role[p] == Page
      && m'.mem[d][STACK_SLOT] == 0
  {
    var (m1, d) := NewDirectory(m, src).value;
    AllocIsFresh(m, Page);
    NewDirectoryKeepsSound(m, src);
    var (m2, p) := AllocFrame(m1, Page).value;
    AllocIsFresh(m1, Page);
    AllocKeepsSound(m1, Page);
    WriteKeepsSound(m2, p, m2.mem[StackFrame(m2.mem, src)]);
  }

  lemma CloneKeepsSound(m: Mach, src: FrameNo)
    requires Sound(m) && IsDir(m, src) && CloneDirectory(m, src).Some?
    ensures var (m', d) := CloneDirectory(m, src).value; Sound(m') && IsDir(m', d)
  {
    var (m1, d, p) := CopyStack(m, src).value;
    CopyStackKeepsSound(m, src);
    MapFreshKeepsSound(m1, d, p, STACK_BASE);
    MapFreshKeepsRoles(m1, d, p, STACK_BASE);
  }

  /** Roles never change once given, except that a page gets mapped. */
  lemma MapFreshKeepsRoles(m: Mach, dir: FrameNo, p: FrameNo, virt: Word)
    requires Sound(m) && IsDir(m, dir) && p in m.role && m.role[p] == Page && virt >= SLOT_SPAN
    requires ObtainTable(m, dir, SlotOf(virt)).Some?
    ensures forall f: FrameNo :: f in m.role && f != p ==>
      f in MapFresh(m, dir, p, virt).value.role && MapFresh(m, dir, p, virt).value.role[f] == m.role[f]
  {
    hide Window, Pages, Blocks, HeapBounds, Slots, Tables, Install, Unmap, AllocFrame;
    MapFreshWrites(m, dir, p, virt);
    ObtainedTable(m, dir, SlotOf(virt));
  }

  // ---------------------------------------------------------------------- boot

  /** The state generatePageTable reaches before the heap is set up. */
  lemma BootTables(mem: Memory, used: set<nat>, d: FrameNo, t: FrameNo, m: Mach)
    requires 0 in used && (forall f: nat :: FREE_TOP <= f < WINDOW ==> f in used)
    requires 0 < d < FREE_TOP && 0 < t < FREE_TOP && d != t
    requires m == Mach(Store(mem[d := ZeroFrame()][t := IdentityTable()], d, 0, t * PAGE + 3),
      used + {d, t}, 0, 0, 0, d, map[d := Directory, t := Table(0, d)], [], m.log)
    ensures Structure(m) && Window(m) && Pages(m)
  {
    assert m.mem[d] == ZeroFrame()[0 := t * PAGE + 3] && m.mem[t] == IdentityTable();
  }

  lemma BootKernelDirectory(mem: Memory, used: set<nat>)
    requires 0 in used && (forall f: nat :: FREE_TOP <= f < WINDOW ==> f in used)
    requires KernelTables(mem, used).Some?
    ensures var m := KernelTables(mem, used).value;
      Structure(m) && Window(m) && Pages(m) && m.blocks == []
  {
    var m0 := Mach(mem, used, 0, 0, 0, 0, map[], [], []);
    var (m1, d) := AllocFrame(m0, Directory).value;
    AllocIsFresh(m0, Directory);
    var (m2, t) := AllocFrame(m1.(kernelDir := d), Table(0, d)).value;
    AllocIsFresh(m1.(kernelDir := d), Table(0, d));
    assert m2.mem[t := IdentityTable()] == mem[d := ZeroFrame()][t := IdentityTable()];
    assert m2.used == used + {d, t};
    BootTables(mem, used, d, t, KernelTables(mem, used).value);
  }

  lemma BootEstablishes(mem: Memory, used: set<nat>)
    requires 0 in used && (forall f: nat :: FREE_TOP <= f < WINDOW ==> f in used)
    requires Boot(mem, used).Some?
    ensures Sound(Boot(mem, used).value)
  {
    BootKernelDirectory(mem, used);
    FirstHeapPage(KernelTables(mem, used).value);
  }

  lemma FirstHeapPage(m: Mach)
    requires Structure(m) && Window(m) && Pages(m) && m.blocks == [] && HeapPage(m).Some?
    ensures Sound(HeapPage(m).value)
  {
    hide AllocFrame, Slots, Tables;
    AllocIsFresh(m, Heap);
    AllocKeepsStructure(m, Heap);
    var m1 := AllocFrame(m, Heap).value.0;
    SlotTable(m, m.kernelDir, 0);
    forall j: SlotNo ensures m1.mem[LowTable(m1)][j] == LowEntry(m1, j) {
      assert m.mem[LowTable(m)][j] == LowEntry(m, j);
    }
    forall t: FrameNo, j: SlotNo | IsTable(m1, t) && t != LowTable(m1) ensures PageOk(m1, t, j) {
      assert PageOk(m, t, j);
    }
    OnlyHeapChanges(m1, HeapPage(m).value);
  }
}
