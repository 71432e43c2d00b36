/** mapPage, seen through every directory and every virtual address. */
module Mapping {
  import opened Options
  import opened Machine
  import opened Paging
  import opened PagingInvariants

  /** `d` and `dir` have the same, non-empty entry in the slot of `virt`. */
  predicate SharesTable(mem: Memory, d: FrameNo, dir: FrameNo, virt: Word) {
    mem[d][SlotOf(virt)] == mem[dir][SlotOf(virt)] != 0
  }

  lemma EntryAligned(q: FrameNo, user: bool, writable: bool)
    ensures Entry(q * PAGE, user, writable) == q * PAGE + 1 + (if writable then 2 else 0) + (if user then 4 else 0)
  {
    assert q * PAGE == 8 * (512 * q);
  }

  lemma FrameOf(q: int, flags: int)
    requires 0 <= flags < 8
    ensures (q * 4096 + flags) / 4096 == q
  {
  }

  lemma PresentOf(q: int, flags: int)
    ensures (q * 4096 + flags) % 2 == flags % 2
  {
    assert q * 4096 + flags == 2 * (2048 * q) + flags;
  }

  lemma LowByteOf(q: int, flags: int)
    requires 0 <= flags < 8
    ensures (q * 4096 + flags) % 256 == flags
  {
    assert q * 4096 + flags == 256 * (16 * q) + flags;
  }

  lemma EntryFields(phys: Word, user: bool, writable: bool)
    requires phys % PAGE == 0
    ensures Entry(phys, user, writable) / PAGE == phys / PAGE
    ensures Entry(phys, user, writable) % 2 == 1
    ensures Masked(Entry(phys, user, writable)) == phys
    ensures !user && writable ==> Entry(phys, user, writable) == phys + 3
  {
    hide Entry;
    var q: FrameNo := phys / PAGE;
    EntryAligned(q, user, writable);
    var flags := Entry(phys, user, writable) - phys;
    FrameOf(q, flags);
    PresentOf(q, flags);
    LowByteOf(q, flags);
  }

  lemma InstallTranslates(m: Mach, dir: FrameNo, virt: Word, entry: Word, d: FrameNo, v: Word)
    requires Structure(m) && IsDir(m, dir) && IsDir(m, d) && entry % 2 == 1
    requires ObtainTable(m, dir, SlotOf(virt)).Some?
    ensures var (m1, t) := ObtainTable(m, dir, SlotOf(virt)).value;
      var mem2 := Install(m1.mem, dir, t, virt, entry);
      Translate(mem2, d, v) ==
        if v / PAGE == virt / PAGE && SharesTable(mem2, d, dir, virt) then Some(entry / PAGE)
        else Translate(m.mem, d, v)
  {
    hide ObtainTable, SlotOf, IndexOf, Structure;
    var (m1, t) := ObtainTable(m, dir, SlotOf(virt)).value;
    ObtainedTable(m, dir, SlotOf(virt));
    SamePage(v, virt);
    SlotTable(m, d, SlotOf(v));
    SlotTable(m, d, SlotOf(virt));
    SlotInvariant(m, d, SlotOf(v));
    SlotInvariant(m, dir, SlotOf(virt));
  }

  lemma SlotInvariant(m: Mach, d: FrameNo, i: SlotNo)
    requires Structure(m) && IsDir(m, d)
    ensures SlotOk(m, d, i)
  {
  }

  /** Which pages lose their identity mapping. */
  predicate RemovesIdentity(m: Mach, phys: Word, virt: Word) {
    phys < IDENTITY_LIMIT
    && (virt / PAGE == phys / PAGE || Masked(m.mem[LowTable(m)][IndexOf(phys)]) == phys)
  }

  lemma UnmapTranslates(m: Mach, dir: FrameNo, phys: Word, d: FrameNo, v: Word)
    requires Structure(m) && IsDir(m, dir) && IsDir(m, d)
    ensures Translate(Unmap(m.mem, dir, phys), d, v) ==
      if IdentityMapped(m.mem, dir, phys) && v / PAGE == phys / PAGE then None
      else Translate(m.mem, d, v)
  {
    SamePage(v, phys);
    SlotTable(m, d, SlotOf(v));
    SlotTable(m, dir, 0);
    assert SlotOk(m, d, SlotOf(v));
    assert SlotOk(m, dir, 0);
    if phys < IDENTITY_LIMIT { assert SlotOf(phys) == 0; }
  }

  /** The whole effect of mapPage on address translation. For every directory
      and address: the frame's own identity page disappears, the target page of
      every directory sharing the table becomes the frame, all else stays. */
  lemma MapPageTranslates(m: Mach, dir: FrameNo, phys: Word, virt: Word, user: bool, writable: bool,
                          d: FrameNo, v: Word)
    requires Structure(m) && IsDir(m, dir) && IsDir(m, d) && phys % PAGE == 0
    requires MapPage(m, dir, phys, virt, user, writable).Some?
    ensures var m' := MapPage(m, dir, phys, virt, user, writable).value;
      Translate(m'.mem, d, v) ==
        if RemovesIdentity(m, phys, virt) && v / PAGE == phys / PAGE then None
        else if v / PAGE == virt / PAGE && SharesTable(m'.mem, d, dir, virt) then Some(phys / PAGE)
        else Translate(m.mem, d, v)
  {
    var (m1, t) := ObtainTable(m, dir, SlotOf(virt)).value;
    var entry := Entry(phys, user, writable);
    var m2 := m1.(mem := Install(m1.mem, dir, t, virt, entry));
    EntryFields(phys, user, writable);
    ObtainedTable(m, dir, SlotOf(virt));
    InstallKeepsStructure(m, dir, virt, entry);
    InstallTranslates(m, dir, virt, entry, d, v);
    UnmapTranslates(m2, dir, phys, d, v);
    SameRemoval(m, dir, phys, virt, entry);
    KeepsDirectories(m2, dir, phys, d);
    KeepsDirectories(m2, dir, phys, dir);
  }

  lemma KeepsDirectories(m: Mach, dir: FrameNo, phys: Word, d: FrameNo)
    requires Structure(m) && IsDir(m, dir) && IsDir(m, d)
    ensures Unmap(m.mem, dir, phys)[d] == m.mem[d]
  {
    if phys < IDENTITY_LIMIT {
      assert SlotOf(phys) == 0;
      SlotTable(m, dir, 0);
    }
  }

  /** The identity test after the entry is written, in terms of the memory before. */
  lemma SameRemoval(m: Mach, dir: FrameNo, phys: Word, virt: Word, entry: Word)
    requires Structure(m) && IsDir(m, dir) && phys % PAGE == 0 && Masked(entry) == phys
    requires ObtainTable(m, dir, SlotOf(virt)).Some?
    ensures var (m1, t) := ObtainTable(m, dir, SlotOf(virt)).value;
      IdentityMapped(Install(m1.mem, dir, t, virt, entry), dir, phys) <==> RemovesIdentity(m, phys, virt)
  {
    var (m1, t) := ObtainTable(m, dir, SlotOf(virt)).value;
    ObtainedTable(m, dir, SlotOf(virt));
    SamePage(virt, phys);
    SlotTable(m, dir, 0);
    assert SlotOk(m, dir, SlotOf(virt));
    assert SlotOk(m, dir, 0);
    if phys < IDENTITY_LIMIT { assert SlotOf(phys) == 0; }
  }

  /** mapPage achieves its purpose exactly when it does not undo it itself. */
  lemma MapPageReaches(m: Mach, dir: FrameNo, phys: Word, virt: Word, user: bool, writable: bool)
    requires Structure(m) && IsDir(m, dir) && phys % PAGE == 0
    requires MapPage(m, dir, phys, virt, user, writable).Some?
    ensures Translate(MapPage(m, dir, phys, virt, user, writable).value.mem, dir, virt) == Some(phys / PAGE)
      <==> virt / PAGE != phys / PAGE || phys >= IDENTITY_LIMIT
  {
    MapPageTranslates(m, dir, phys, virt, user, writable, dir, virt);
    SlotStays(m, dir, phys, virt, user, writable);
  }

  /** Mapping the page at 0x1000 to its own frame takes the page away. */
  lemma OwnPageUndone(m: Mach, dir: FrameNo)
    requires Structure(m) && IsDir(m, dir) && MapPage(m, dir, PAGE, PAGE, false, true).Some?
    ensures Translate(MapPage(m, dir, PAGE, PAGE, false, true).value.mem, dir, PAGE) == None
  {
    MapPageTranslates(m, dir, PAGE, PAGE, false, true, dir, PAGE);
  }

  lemma SlotStays(m: Mach, dir: FrameNo, phys: Word, virt: Word, user: bool, writable: bool)
    requires Structure(m) && IsDir(m, dir) && MapPage(m, dir, phys, virt, user, writable).Some?
    ensures MapPage(m, dir, phys, virt, user, writable).value.mem[dir][SlotOf(virt)] != 0
  {
    var (m1, t) := ObtainTable(m, dir, SlotOf(virt)).value;
    InstallKeepsStructure(m, dir, virt, Entry(phys, user, writable));
    ObtainedTable(m, dir, SlotOf(virt));
    KeepsDirectories(m1.(mem := Install(m1.mem, dir, t, virt, Entry(phys, user, writable))), dir, phys, dir);
  }
}
