/** What allocation, mapping and cloning keep: one role per frame, and the
    sharing of tables between directories. */
module PagingInvariants {
  import opened Options
  import opened Machine
  import opened Paging

  /** allocPage finds a frame exactly when one below 512 is clear, and takes the
      lowest: every smaller one is in use. */
  lemma AllocIsLowest(m: Mach, role: Role)
    ensures AllocFrame(m, role).Some? <==> exists f: nat :: f < WINDOW && f !in m.used
    ensures AllocFrame(m, role).Some? ==>
      var (m', f) := AllocFrame(m, role).value;
      f < WINDOW && f !in m.used && m'.used == m.used + {f} && (forall g: nat :: g < f ==> g in m.used)
  {
  }

  /** A frame from allocPage had no role, and no other frame changes. */
  lemma AllocIsFresh(m: Mach, role: Role)
    requires Owned(m) && AllocFrame(m, role).Some?
    ensures var (m', f) := AllocFrame(m, role).value;
      && f !in m.used && f !in m.role && 0 < f < FREE_TOP
      && m'.mem[f] == ZeroFrame() && (forall g: FrameNo :: g != f ==> m'.mem[g] == m.mem[g])
      && m' == m.(mem := m'.mem, used := m.used + {f}, role := m.role[f := role], log := m.log + [f])
      && Owned(m')
  {
    var (m', f) := AllocFrame(m, role).value;
    assert f < FREE_TOP;
  }

  /** Structure only looks at the directories and at which frames are tables. */
  lemma StructureFrame(m: Mach, m': Mach)
    requires Structure(m) && Owned(m') && m'.kernelDir == m.kernelDir
    requires forall d: FrameNo :: IsDir(m', d) <==> IsDir(m, d)
    requires forall t: FrameNo :: IsTable(m', t) <==> IsTable(m, t)
    requires forall t: FrameNo :: IsTable(m, t) ==> t in m'.role && m'.role[t] == m.role[t]
    requires forall d: FrameNo :: IsDir(m, d) ==> m'.mem[d] == m.mem[d]
    ensures Structure(m')
  {
    forall d: FrameNo, i: SlotNo | IsDir(m', d) ensures SlotOk(m', d, i) {
      assert SlotOk(m, d, i);
    }
    forall t: FrameNo | IsTable(m', t) ensures TableOk(m', t) {
      assert TableOk(m, t);
    }
  }

  /** A slot of a directory is empty, or holds the address of its table. */
  lemma SlotTable(m: Mach, d: FrameNo, i: SlotNo)
    requires Structure(m) && IsDir(m, d)
    ensures Masked(m.mem[d][i]) == 0 <==> m.mem[d][i] == 0
    ensures m.mem[d][i] != 0 ==>
      IsTable(m, TableOf(m.mem, d, i)) && m.mem[d][i] == TableOf(m.mem, d, i) * PAGE + 3
      && TableOf(m.mem, d, i) == m.mem[d][i] / PAGE
  {
    assert SlotOk(m, d, i);
  }

  lemma AllocKeepsStructure(m: Mach, role: Role)
    requires Structure(m) && AllocFrame(m, role).Some? && !role.Directory? && !role.Table?
    ensures Structure(AllocFrame(m, role).value.0)
  {
    AllocIsFresh(m, role);
    StructureFrame(m, AllocFrame(m, role).value.0);
  }

  /** Entering a fresh table in an empty slot of `dir`. */
  lemma EnterTable(m: Mach, dir: FrameNo, slot: SlotNo, t: FrameNo, m': Mach)
    requires Structure(m) && IsDir(m, dir) && m.mem[dir][slot] == 0
    requires t !in m.role && Owned(m')
    requires m'.kernelDir == m.kernelDir && m'.role == m.role[t := Table(slot, dir)]
    requires forall d: FrameNo :: IsDir(m, d) && d != dir ==> m'.mem[d] == m.mem[d]
    requires m'.mem[dir] == m.mem[dir][slot := t * PAGE + 3]
    ensures Structure(m')
  {
    forall d: FrameNo, i: SlotNo | IsDir(m', d) ensures SlotOk(m', d, i) {
      assert SlotOk(m, d, i);
    }
    forall u: FrameNo | IsTable(m', u) ensures TableOk(m', u) {
      if u != t { assert TableOk(m, u); }
    }
  }

  /** What getting a table for a slot yields: the slot's table, or a fresh zeroed one. */
  lemma ObtainedTable(m: Mach, dir: FrameNo, slot: SlotNo)
    requires Structure(m) && IsDir(m, dir) && ObtainTable(m, dir, slot).Some?
    ensures var (m1, t) := ObtainTable(m, dir, slot).value;
      && Owned(m1) && !IsDir(m, t) && m1.mem[dir] == m.mem[dir]
      && (if m.mem[dir][slot] == 0
          then slot != 0 && t !in m.role && 0 < t < FREE_TOP && m1.mem == m.mem[t := ZeroFrame()]
            && m1 == m.(mem := m1.mem, used := m.used + {t}, role := m.role[t := Table(slot, dir)], log := m1.log)
          else m1 == m && IsTable(m, t) && m.mem[dir][slot] == t * PAGE + 3)
  {
    SlotTable(m, dir, slot);
    if m.mem[dir][slot] == 0 { AllocIsFresh(m, Table(slot, dir)); }
  }

  /** Installing the entry keeps the structure. */
  lemma InstallKeepsStructure(m: Mach, dir: FrameNo, virt: Word, entry: Word)
    requires Structure(m) && IsDir(m, dir) && ObtainTable(m, dir, SlotOf(virt)).Some?
    ensures var (m1, t) := ObtainTable(m, dir, SlotOf(virt)).value;
      Structure(m1.(mem := Install(m1.mem, dir, t, virt, entry)))
  {
    hide ObtainTable, SlotOf, IndexOf;
    var (m1, t) := ObtainTable(m, dir, SlotOf(virt)).value;
    ObtainedTable(m, dir, SlotOf(virt));
    var m2 := m1.(mem := Install(m1.mem, dir, t, virt, entry));
    if m.mem[dir][SlotOf(virt)] == 0 {
      EnterTable(m, dir, SlotOf(virt), t, m2);
    } else {
      StructureFrame(m, m2);
    }
  }

  /** Removing an identity entry writes to the shared first table. */
  lemma UnmapKeepsStructure(m: Mach, dir: FrameNo, phys: Word)
    requires Structure(m) && IsDir(m, dir)
    ensures Structure(m.(mem := Unmap(m.mem, dir, phys)))
  {
    if phys < IDENTITY_LIMIT {
      assert SlotOf(phys) == 0;
      SlotTable(m, dir, 0);
    }
    StructureFrame(m, m.(mem := Unmap(m.mem, dir, phys)));
  }

  /** mapPage keeps the sharing structure for any frame and any address. */
  lemma MapPageKeepsStructure(m: Mach, dir: FrameNo, phys: Word, virt: Word, user: bool, writable: bool)
    requires Structure(m) && IsDir(m, dir) && MapPage(m, dir, phys, virt, user, writable).Some?
    ensures Structure(MapPage(m, dir, phys, virt, user, writable).value)
  {
    var (m1, t) := ObtainTable(m, dir, SlotOf(virt)).value;
    InstallKeepsStructure(m, dir, virt, Entry(phys, user, writable));
    ObtainedTable(m, dir, SlotOf(virt));
    UnmapKeepsStructure(m1.(mem := Install(m1.mem, dir, t, virt, Entry(phys, user, writable))), dir, phys);
  }

  lemma NewDirectoryKeepsStructure(m: Mach, src: FrameNo)
    requires Structure(m) && IsDir(m, src) && NewDirectory(m, src).Some?
    ensures Structure(NewDirectory(m, src).value.0)
  {
    AllocIsFresh(m, Page);
    var (m', d) := NewDirectory(m, src).value;
    forall e: FrameNo, i: SlotNo | IsDir(m', e) ensures SlotOk(m', e, i) {
      assert SlotOk(m, if e == d then m.kernelDir else e, i);
    }
    forall t: FrameNo | IsTable(m', t) ensures TableOk(m', t) {
      assert TableOk(m, t);
    }
  }

  lemma MapFreshKeepsStructure(m: Mach, dir: FrameNo, p: FrameNo, virt: Word)
    requires Structure(m) && IsDir(m, dir) && p in m.role && m.role[p] == Page && MapFresh(m, dir, p, virt).Some?
    ensures Structure(MapFresh(m, dir, p, virt).value)
  {
    var m1 := MapPage(m, dir, p * PAGE, virt, false, true).value;
    MapPageKeepsStructure(m, dir, p * PAGE, virt, false, true);
    SlotTable(m, dir, SlotOf(virt));
    if m.mem[dir][SlotOf(virt)] == 0 { AllocIsFresh(m, Table(SlotOf(virt), dir)); }
    StructureFrame(m1, MapFresh(m, dir, p, virt).value);
  }
}
