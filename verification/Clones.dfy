/** What a cloned directory shows at every address. */
module Clones {
  import opened Options
  import opened Machine
  import opened Paging
  import opened PagingInvariants
  import opened Mapping
  import opened Ownership
  import opened System
  import opened SystemInvariants
  import opened Isolation
  import opened Frames

  /** The source's slot is the kernel's own, and not empty. */
  predicate Links(m: Mach, src: FrameNo, slot: SlotNo) {
    m.mem[src][slot] != 0 && m.mem[src][slot] == m.mem[m.kernelDir][slot]
  }

  /** Before its stack is mapped, the new directory shows the kernel's pages behind
      the slots that link, and nothing else. */
  lemma NewDirectoryTranslates(m: Mach, src: FrameNo, va: Word)
    requires Sound(m) && IsDir(m, src) && NewDirectory(m, src).Some?
    ensures var (m1, d) := NewDirectory(m, src).value;
      Translate(m1.mem, d, va) ==
        if SlotOf(va) != STACK_SLOT && Links(m, src, SlotOf(va)) then Translate(m.mem, m.kernelDir, va) else None
  {
    AllocIsFresh(m, Page);
    SlotTable(m, m.kernelDir, SlotOf(va));
  }

  /** Translation looks at directories and tables only. */
  lemma SameTables(m: Mach, mem: Memory, d: FrameNo, va: Word)
    requires Structure(m) && IsDir(m, d)
    requires forall f: FrameNo :: f in m.role && (m.role[f].Directory? || m.role[f].Table?) ==> mem[f] == m.mem[f]
    ensures Translate(mem, d, va) == Translate(m.mem, d, va)
  {
    SlotTable(m, d, SlotOf(va));
  }

  lemma CopyStackTranslates(m: Mach, src: FrameNo, va: Word)
    requires Sound(m) && IsDir(m, src) && CopyStack(m, src).Some?
    ensures var (m2, d, _) := CopyStack(m, src).value;
      && m2.kernelDir == m.kernelDir && Translate(m2.mem, m.kernelDir, va) == Translate(m.mem, m.kernelDir, va)
      && Translate(m2.mem, d, va) ==
        (if SlotOf(va) != STACK_SLOT && Links(m, src, SlotOf(va)) then Translate(m.mem, m.kernelDir, va) else None)
  {
    var (m1, d) := NewDirectory(m, src).value;
    var (m2, _, _) := CopyStack(m, src).value;
    NewDirectoryTranslates(m, src, va);
    AllocIsFresh(m, Page);
    NewDirectoryKeepsSound(m, src);
    AllocIsFresh(m1, Page);
    hide Translate, Slots, Tables, Window, Pages, Blocks, Links;
    SameTables(m, m2.mem, m.kernelDir, va);
    SameTables(m1, m2.mem, d, va);
  }

  /** A fresh page loses its own address when it is mapped. */
  lemma FreshRemoves(m: Mach, p: FrameNo, virt: Word)
    requires Sound(m) && p in m.role && m.role[p] == Page
    ensures p < FREE_TOP && RemovesIdentity(m, p * PAGE, virt) && p * PAGE / PAGE == p
  {
    assert 0 < p < FREE_TOP;
    assert m.mem[LowTable(m)][p] == LowEntry(m, p);
    assert IndexOf(p * PAGE) == p;
  }

  /** Mapping the stack page gives the new directory that page, takes the frame's own
      page out of every directory, and changes nothing else. */
  lemma StackMapTranslates(m: Mach, d: FrameNo, p: FrameNo, e: FrameNo, va: Word)
    requires Sound(m) && IsDir(m, d) && IsDir(m, e) && p in m.role && m.role[p] == Page
    requires MapFresh(m, d, p, STACK_BASE).Some? && (e == d || SlotOf(va) != STACK_SLOT)
    ensures Translate(MapFresh(m, d, p, STACK_BASE).value.mem, e, va) ==
      if va / PAGE == p then None
      else if va / PAGE == STACK_BASE / PAGE then Some(p)
      else Translate(m.mem, e, va)
  {
    FreshRemoves(m, p, STACK_BASE);
    MapPageTranslates(m, d, p * PAGE, STACK_BASE, false, true, e, va);
    SlotStays(m, d, p * PAGE, STACK_BASE, false, true);
    assert SlotOf(STACK_BASE) == STACK_SLOT;
    if va / PAGE == STACK_BASE / PAGE { SamePage(va, STACK_BASE); }
  }

  /** The whole address space of a clone. Behind every slot of the source that is the
      kernel's, the stack slot apart, it shows what the kernel's directory shows,
      before and after; in the stack slot its first page only; elsewhere nothing.
      The frame of the stack page is at its own address in neither. */
  lemma CloneTranslates(m: Mach, src: FrameNo, va: Word)
    requires Sound(m) && IsDir(m, src) && CloneDirectory(m, src).Some?
    ensures var (m', d) := CloneDirectory(m, src).value; var stack := Translate(m'.mem, d, STACK_BASE);
      && m'.kernelDir == m.kernelDir && stack.Some? && stack.value !in m.used
      && (if SlotOf(va) == STACK_SLOT then
            Translate(m'.mem, d, va) == (if va / PAGE == STACK_BASE / PAGE then stack else None)
          else if Links(m, src, SlotOf(va)) then
            && Translate(m'.mem, d, va) == Translate(m'.mem, m.kernelDir, va)
            && Translate(m'.mem, d, va) ==
              (if stack == Some(va / PAGE) then None else Translate(m.mem, m.kernelDir, va))
          else Translate(m'.mem, d, va) == None)
  {
    var (m2, d, p) := CopyStack(m, src).value;
    CopyStackKeepsSound(m, src);
    CopyStackFrames(m, src);
    CopyStackTranslates(m, src, va);
    hide CopyStack, MapFresh, Translate, Sound;
    StackOf(m2, d, p);
    StackMapTranslates(m2, d, p, d, va);
    if SlotOf(va) != STACK_SLOT { StackMapTranslates(m2, d, p, m.kernelDir, va); }
  }

  /** A clone takes three frames, lowest first: the directory, the stack page, and a
      table for the stack slot. */
  lemma CloneTakes(m: Mach, src: FrameNo)
    requires Sound(m) && IsDir(m, src) && CloneDirectory(m, src).Some?
    ensures var (m', d) := CloneDirectory(m, src).value;
      var p := Translate(m'.mem, d, STACK_BASE); var t := m'.mem[d][STACK_SLOT] / PAGE;
      && p.Some? && d < p.value < t && m'.used == m.used + {d, p.value, t}
      && (forall g: nat :: g < t && g != d && g != p.value ==> g in m.used)
      && d !in m.used && p.value !in m.used && t !in m.used
  {
    var (m2, d, p) := CopyStack(m, src).value;
    CopyStackKeepsSound(m, src);
    CopyStackTakes(m, src);
    var m' := MapFresh(m2, d, p, STACK_BASE).value;
    assert CloneDirectory(m, src) == Some((m', d));
    hide CopyStack, MapFresh, CloneDirectory, Translate, Sound;
    StackOf(m2, d, p);
    StackTable(m2, d, p);
    ThreeTaken(m.used, d, p, m'.mem[d][STACK_SLOT] / PAGE);
  }

  lemma ThreeTaken(used: set<nat>, d: nat, p: nat, t: nat)
    requires d < p && p !in used && t !in used + {d, p} && (forall g: nat :: g < p && g != d ==> g in used)
    requires forall g: nat :: g < t ==> g in used + {d, p}
    ensures p < t && used + {d, p} + {t} == used + {d, p, t}
    ensures forall g: nat :: g < t && g != d && g != p ==> g in used
  {
    assert t < p ==> t in used + {d, p};
    forall g: nat | g < t && g != d && g != p ensures g in used { assert g in used + {d, p}; }
  }

  lemma CopyStackTakes(m: Mach, src: FrameNo)
    requires CopyStack(m, src).Some?
    ensures var (m2, d, p) := CopyStack(m, src).value;
      && d < p && m2.used == m.used + {d, p} && d !in m.used && p !in m.used
      && (forall g: nat :: g < p && g != d ==> g in m.used)
  {
    hide AllocFrame, SharedSlots, StackFrame;
    var (m1, d) := NewDirectory(m, src).value;
    AllocIsLowest(m, Page);
    AllocIsLowest(m1, Page);
  }

  lemma StackTable(m: Mach, d: FrameNo, p: FrameNo)
    requires Sound(m) && IsDir(m, d) && p in m.role && m.role[p] == Page && m.mem[d][STACK_SLOT] == 0
    requires MapFresh(m, d, p, STACK_BASE).Some?
    ensures var m' := MapFresh(m, d, p, STACK_BASE).value; var t := m'.mem[d][STACK_SLOT] / PAGE;
      m'.used == m.used + {t} && t !in m.used && (forall g: nat :: g < t ==> g in m.used)
  {
    MapFreshGrows(m, d, p, STACK_BASE);
    hide AllocFrame, MapFresh, Window, Pages, Blocks, Slots, Tables, Unmap, Grows, MappedAt;
    assert SlotOf(STACK_BASE) == STACK_SLOT;
    AllocIsLowest(m, Table(STACK_SLOT, d));
    MapFreshWrites(m, d, p, STACK_BASE);
    ObtainedTable(m, d, STACK_SLOT);
    HighTable(m, d, STACK_BASE);
    var (m1, t) := ObtainTable(m, d, STACK_SLOT).value;
    MappedSlot(m1, d, t, LowTable(m), p, STACK_BASE);
  }

  lemma MappedSlot(m: Mach, d: FrameNo, t: FrameNo, low: FrameNo, p: FrameNo, virt: Word)
    requires p < WINDOW && low != d
    ensures var m' := MappedAt(m, d, t, low, p, virt);
      m'.mem[d][SlotOf(virt)] / PAGE == t && m'.used == m.used
  {
    FrameOf(t, 3);
  }

  lemma CopyStackFrames(m: Mach, src: FrameNo)
    requires Sound(m) && IsDir(m, src) && CopyStack(m, src).Some?
    ensures var (m2, d, p) := CopyStack(m, src).value;
      p !in m.used && IsDir(m2, m.kernelDir) && m2.kernelDir == m.kernelDir
  {
    AllocIsFresh(m, Page);
    NewDirectoryKeepsSound(m, src);
    AllocIsFresh(NewDirectory(m, src).value.0, Page);
  }

  lemma StackOf(m: Mach, d: FrameNo, p: FrameNo)
    requires Sound(m) && IsDir(m, d) && p in m.role && m.role[p] == Page && MapFresh(m, d, p, STACK_BASE).Some?
    ensures Translate(MapFresh(m, d, p, STACK_BASE).value.mem, d, STACK_BASE) == Some(p)
    ensures MapFresh(m, d, p, STACK_BASE).value.kernelDir == m.kernelDir
  {
    FreshRemoves(m, p, STACK_BASE);
    StackMapTranslates(m, d, p, d, STACK_BASE);
    MapFreshKeepsKernel(m, d, p, STACK_BASE);
  }

  // ------------------------------------------------------------------ forking

  lemma KmallocKeepsTables(m: Mach, bytes: Word, d: FrameNo, va: Word)
    requires Sound(m) && IsDir(m, d) && Kmalloc(m, bytes).Some?
    ensures var m' := Kmalloc(m, bytes).value.0;
      m'.mem[d] == m.mem[d] && Translate(m'.mem, d, va) == Translate(m.mem, d, va)
    ensures m.used <= Kmalloc(m, bytes).value.0.used && Kmalloc(m, bytes).value.0.kernelDir == m.kernelDir
  {
    SlotTable(m, d, SlotOf(va));
    if Wrap(m.next + bytes) > m.end { AllocIsFresh(m, Heap); }
  }

  /** The whole address space of a forked child. */
  ghost predicate ChildSees(s: Sys, s': Sys, va: Word)
    requires s.cur < |s.tasks| && |s.tasks| < |s'.tasks|
  {
    var kernel, parent, child := s.tasks[0].dir, s.tasks[s.cur].dir, s'.tasks[|s.tasks|].dir;
    var stack := Translate(s'.m.mem, child, STACK_BASE);
    var slot := SlotOf(va);
    && stack.Some? && stack.value !in s.m.used
    && (if slot == STACK_SLOT then
          Translate(s'.m.mem, child, va) == (if va / PAGE == STACK_BASE / PAGE then stack else None)
        else if s.m.mem[parent][slot] != 0 && s.m.mem[parent][slot] == s.m.mem[kernel][slot] then
          && Translate(s'.m.mem, child, va) == Translate(s'.m.mem, kernel, va)
          && Translate(s'.m.mem, child, va) ==
            (if stack == Some(va / PAGE) then None else Translate(s.m.mem, kernel, va))
        else Translate(s'.m.mem, child, va) == None)
  }

  lemma ForkTranslates(s: Sys, ctx: Context, va: Word)
    requires Inv(s) && ForkTask(s, ctx).Some?
    ensures ChildSees(s, ForkTask(s, ctx).value, va)
  {
    var src := s.tasks[s.cur].dir;
    var m1 := Kmalloc(s.m, TASK_SIZE).value.0;
    KmallocKeepsSound(s.m, TASK_SIZE);
    KmallocKeepsRoles(s.m, TASK_SIZE);
    KmallocKeepsTables(s.m, TASK_SIZE, src, va);
    KmallocKeepsTables(s.m, TASK_SIZE, s.m.kernelDir, va);
    hide Kmalloc, CloneDirectory, Sound, Translate;
    CloneTranslates(m1, src, va);
  }

  /** After any run, a fork gives the child exactly the kernel's part of the
      parent's address space and one stack page. */
  lemma ForkAfterAnyRun(s: Sys, ctx: Context, va: Word)
    requires Reachable(s) && s.cur < |s.tasks| && ForkTask(s, ctx).Some?
    ensures ChildSees(s, ForkTask(s, ctx).value, va)
  {
    ReachableHolds(s);
    hide Reachable, ForkTask, ChildSees;
    ForkTranslates(s, ctx, va);
  }
}
