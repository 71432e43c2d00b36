/** What tasks can and cannot see of each other's memory. */
module Isolation {
  import opened Options
  import opened Machine
  import opened Paging
  import opened PagingInvariants
  import opened Mapping
  import opened Ownership
  import opened System
  import opened SystemInvariants

  // -------------------------------------------------------- sharing of tables

  /** Every slot is empty, or the kernel's own entry outside the stack slot, or
      points to a table no other directory points to from any slot. */
  lemma SharingOfTables(m: Mach, d: FrameNo, i: SlotNo, d': FrameNo, i': SlotNo)
    requires Structure(m) && IsDir(m, d) && IsDir(m, d')
    ensures || m.mem[d][i] == 0
            || (i != STACK_SLOT && m.mem[d][i] == m.mem[m.kernelDir][i])
            || (d' != d ==> TableOf(m.mem, d, i) != TableOf(m.mem, d', i') || m.mem[d'][i'] == 0)
  {
    SlotTable(m, d, i);
    SlotTable(m, d', i');
    assert SlotOk(m, d, i) && SlotOk(m, d', i');
    if m.mem[d][i] != 0 { assert TableOk(m, TableOf(m.mem, d, i)); }
  }

  // ---------------------------------------------------------- identity window

  /** The kernel's own frames and every clear frame of the window: reached in
      every directory at their own address. */
  predicate KernelFrame(m: Mach, x: FrameNo) {
    x < WINDOW && (x !in m.used || (x in m.role && (m.role[x].Directory? || m.role[x].Table? || m.role[x].Heap?)))
  }

  lemma IdentityWindow(m: Mach, d: FrameNo, x: FrameNo, va: Word)
    requires Sound(m) && IsDir(m, d) && x < WINDOW && (x in m.role ==> !m.role[x].Mapped?) && va / PAGE == x
    ensures Translate(m.mem, d, va) == Some(x)
  {
    SlotTable(m, d, 0);
    assert m.mem[LowTable(m)][x] == LowEntry(m, x);
    assert SlotOf(va) == 0 && IndexOf(va) == x;
  }

  /** Stores of the kernel through any directory reach the frame they name. */
  lemma KernelFramesReached(m: Mach, d: FrameNo, x: FrameNo, va: Word)
    requires Sound(m) && IsDir(m, d) && KernelFrame(m, x) && va / PAGE == x
    ensures Translate(m.mem, d, va) == Some(x)
  {
    IdentityWindow(m, d, x, va);
  }

  // ------------------------------------------------------------ private pages

  /** The first table only reaches frames that are not mapped anywhere else. */
  lemma LowAddress(m: Mach, d: FrameNo, va: Word)
    requires Sound(m) && IsDir(m, d) && va < SLOT_SPAN && Translate(m.mem, d, va).Some?
    ensures var f := Translate(m.mem, d, va).value; f in m.role ==> !m.role[f].Mapped?
  {
    SlotTable(m, d, 0);
    assert m.mem[LowTable(m)][IndexOf(va)] == LowEntry(m, IndexOf(va));
  }

  /** No address of another directory reaches a frame behind the stack slot. */
  lemma StackFramesArePrivate(m: Mach, d: FrameNo, d': FrameNo, va: Word, va': Word)
    requires Sound(m) && IsDir(m, d) && IsDir(m, d') && d != d' && SlotOf(va) == STACK_SLOT
    requires Translate(m.mem, d, va).Some?
    ensures Translate(m.mem, d', va') != Translate(m.mem, d, va)
  {
    HighAddress(m, d, va);
    SlotTable(m, d, STACK_SLOT);
    assert SlotOk(m, d, STACK_SLOT);
    if Translate(m.mem, d', va').Some? {
      if va' < SLOT_SPAN {
        LowAddress(m, d', va');
      } else {
        HighAddress(m, d', va');
        SlotTable(m, d', SlotOf(va'));
        assert SlotOk(m, d', SlotOf(va'));
      }
    }
  }

  /** Within one directory, a page above the first table has no second address. */
  lemma HighPagesAreDistinct(m: Mach, d: FrameNo, va: Word, va': Word)
    requires Sound(m) && IsDir(m, d) && va >= SLOT_SPAN && Translate(m.mem, d, va).Some?
    requires Translate(m.mem, d, va') == Translate(m.mem, d, va)
    ensures va' / PAGE == va / PAGE
  {
    HighAddress(m, d, va);
    if va' < SLOT_SPAN {
      LowAddress(m, d, va');
    } else {
      HighAddress(m, d, va');
      SlotTable(m, d, SlotOf(va));
      SlotTable(m, d, SlotOf(va'));
      assert SlotOk(m, d, SlotOf(va)) && SlotOk(m, d, SlotOf(va'));
      SamePage(va, va');
    }
  }

  // -------------------------------------------------------------- stack views

  /** What a directory shows on the page of `va`. */
  function View(mem: Memory, dir: FrameNo, va: Word): Option<Frame> {
    var f :- Translate(mem, dir, va);
    Some(mem[f])
  }

  lemma ViewFrame(m: Mach, m': Mach, d: FrameNo, va: Word)
    requires Structure(m) && Pages(m) && IsDir(m, d) && va >= SLOT_SPAN
    requires m'.mem[d] == m.mem[d]
    requires forall t: FrameNo :: IsTable(m, t) ==> m'.mem[t] == m.mem[t]
    requires forall f: FrameNo :: f in m.role && m.role[f].Mapped? ==> m'.mem[f] == m.mem[f]
    ensures View(m'.mem, d, va) == View(m.mem, d, va)
  {
    SlotTable(m, d, SlotOf(va));
    if Translate(m.mem, d, va).Some? { HighAddress(m, d, va); }
  }

  lemma AllocKeepsView(m: Mach, role: Role, d: FrameNo, va: Word)
    requires Sound(m) && IsDir(m, d) && va >= SLOT_SPAN && AllocFrame(m, role).Some?
    ensures View(AllocFrame(m, role).value.0.mem, d, va) == View(m.mem, d, va)
  {
    AllocIsFresh(m, role);
    ViewFrame(m, AllocFrame(m, role).value.0, d, va);
  }

  lemma KmallocKeepsView(m: Mach, bytes: Word, d: FrameNo, va: Word)
    requires Sound(m) && IsDir(m, d) && va >= SLOT_SPAN && Kmalloc(m, bytes).Some?
    ensures View(Kmalloc(m, bytes).value.0.mem, d, va) == View(m.mem, d, va)
  {
    if Wrap(m.next + bytes) > m.end { AllocKeepsView(m, Heap, d, va); }
  }

  lemma CopyStackKeepsView(m: Mach, src: FrameNo, d: FrameNo, va: Word)
    requires Sound(m) && IsDir(m, src) && IsDir(m, d) && va >= SLOT_SPAN && CopyStack(m, src).Some?
    ensures View(CopyStack(m, src).value.0.mem, d, va) == View(m.mem, d, va)
    ensures IsDir(CopyStack(m, src).value.0, d) && CopyStack(m, src).value.1 != d
  {
    AllocIsFresh(m, Page);
    var (m1, e) := NewDirectory(m, src).value;
    NewDirectoryKeepsSound(m, src);
    AllocIsFresh(m1, Page);
    ViewFrame(m, CopyStack(m, src).value.0, d, va);
  }

  /** The contents of pages survive a mapping. */
  lemma MapFreshContents(m: Mach, dir: FrameNo, p: FrameNo, virt: Word)
    requires Sound(m) && IsDir(m, dir) && p in m.role && m.role[p] == Page && virt >= SLOT_SPAN
    requires ObtainTable(m, dir, SlotOf(virt)).Some?
    ensures forall f: FrameNo :: f in m.role && (m.role[f].Mapped? || m.role[f] == Page) ==>
      MapFresh(m, dir, p, virt).value.mem[f] == m.mem[f]
  {
    MapFreshWrites(m, dir, p, virt);
    ObtainedTable(m, dir, SlotOf(virt));
    HighTable(m, dir, virt);
  }

  /** Mapping a fresh page moves a stack address of one directory only. */
  lemma MapFreshTranslates(m: Mach, dir: FrameNo, p: FrameNo, virt: Word, d: FrameNo, va: Word)
    requires Sound(m) && IsDir(m, dir) && IsDir(m, d) && p in m.role && m.role[p] == Page && virt >= SLOT_SPAN
    requires ObtainTable(m, dir, SlotOf(virt)).Some? && SlotOf(va) == STACK_SLOT
    ensures Translate(MapFresh(m, dir, p, virt).value.mem, d, va) ==
      if d == dir && virt / PAGE == va / PAGE then Some(p) else Translate(m.mem, d, va)
  {
    var m' := MapPage(m, dir, p * PAGE, virt, false, true).value;
    MapPageTranslates(m, dir, p * PAGE, virt, false, true, d, va);
    SlotStays(m, dir, p * PAGE, virt, false, true);
    assert p < FREE_TOP && p * PAGE / PAGE == p;
    if d != dir && virt / PAGE == va / PAGE {
      SamePage(virt, va);
      MapPageKeepsStructure(m, dir, p * PAGE, virt, false, true);
      MapPageKeepsDirectories(m, dir, p * PAGE, virt);
      SharingOfTables(m', d, STACK_SLOT, dir, STACK_SLOT);
    }
  }

  lemma MapPageKeepsDirectories(m: Mach, dir: FrameNo, phys: Word, virt: Word)
    requires Structure(m) && IsDir(m, dir) && MapPage(m, dir, phys, virt, false, true).Some?
    ensures forall d: FrameNo :: IsDir(m, d) ==> IsDir(MapPage(m, dir, phys, virt, false, true).value, d)
  {
    ObtainedTable(m, dir, SlotOf(virt));
  }

  /** Mapping a fresh page changes only the stack view of the directory it is
      mapped in, and only when the address is on the page in view. */
  lemma MapFreshView(m: Mach, dir: FrameNo, p: FrameNo, virt: Word, d: FrameNo, va: Word)
    requires Sound(m) && IsDir(m, dir) && IsDir(m, d) && p in m.role && m.role[p] == Page && virt >= SLOT_SPAN
    requires ObtainTable(m, dir, SlotOf(virt)).Some? && SlotOf(va) == STACK_SLOT
    ensures View(MapFresh(m, dir, p, virt).value.mem, d, va) ==
      if d == dir && virt / PAGE == va / PAGE then Some(m.mem[p]) else View(m.mem, d, va)
  {
    MapFreshTranslates(m, dir, p, virt, d, va);
    MapFreshContents(m, dir, p, virt);
    if Translate(m.mem, d, va).Some? { HighAddress(m, d, va); }
  }

  // ------------------------------------------------------------------ forking

  /** The frame clonePageDirectory copies is the one behind the stack's first page. */
  lemma StackFrameIsTranslated(m: Mach, src: FrameNo)
    requires Translate(m.mem, src, STACK_BASE).Some?
    ensures Translate(m.mem, src, STACK_BASE) == Some(StackFrame(m.mem, src))
  {
    assert SlotOf(STACK_BASE) == STACK_SLOT && IndexOf(STACK_BASE) == 0;
  }

  /** The copy is of the stack page as it was, whatever else the clone allocates. */
  lemma CopiedPage(m: Mach, src: FrameNo)
    requires Sound(m) && IsDir(m, src) && CopyStack(m, src).Some? && View(m.mem, src, STACK_BASE).Some?
    ensures var (m', d, p) := CopyStack(m, src).value;
      Some(m'.mem[p]) == View(m.mem, src, STACK_BASE)
  {
    var (m1, d) := NewDirectory(m, src).value;
    AllocIsFresh(m, Page);
    NewDirectoryKeepsSound(m, src);
    var (m2, p) := AllocFrame(m1, Page).value;
    AllocIsFresh(m1, Page);
    ViewFrame(m, m2, src, STACK_BASE);
    StackFrameIsTranslated(m2, src);
  }

  /** A frame is reached at its own address exactly when it is in the window and
      was never mapped above the first table: mapping it again elsewhere, or another
      frame in its place, does not bring its identity page back. */
  lemma OwnAddressReached(m: Mach, d: FrameNo, x: FrameNo, va: Word)
    requires Sound(m) && IsDir(m, d) && va / PAGE == x
    ensures Translate(m.mem, d, va) == Some(x) <==> x < WINDOW && !(x in m.role && m.role[x].Mapped?)
    ensures x in m.role && m.role[x].Mapped? ==> Translate(m.mem, d, va) == None
  {
    SlotTable(m, d, 0);
    if va < SLOT_SPAN {
      assert SlotOf(va) == 0 && IndexOf(va) == x;
      assert m.mem[LowTable(m)][x] == LowEntry(m, x);
    } else if Translate(m.mem, d, va).Some? {
      HighAddress(m, d, va);
    }
  }

  /** clonePageDirectory reads its source at the frame's own address. When the
      source directory's stack page is mapped, that read faults in every directory. */
  lemma StackSourceFaults(m: Mach, src: FrameNo, d: FrameNo, va: Word)
    requires Sound(m) && IsDir(m, src) && IsDir(m, d) && Translate(m.mem, src, STACK_BASE).Some?
    requires va / PAGE == StackFrame(m.mem, src)
    ensures Translate(m.mem, d, va) == None
  {
    StackFrameIsTranslated(m, src);
    HighAddress(m, src, STACK_BASE);
    OwnAddressReached(m, d, StackFrame(m.mem, src), va);
  }

  /** The intended copy: cloning gives the new directory its own copy of the stack's
      first page and changes no stack page of any other directory. */
  lemma CloneViews(m: Mach, src: FrameNo, d: FrameNo, va: Word)
    requires Sound(m) && IsDir(m, src) && IsDir(m, d) && CloneDirectory(m, src).Some? && SlotOf(va) == STACK_SLOT
    ensures View(CloneDirectory(m, src).value.0.mem, d, va) == View(m.mem, d, va)
    ensures View(m.mem, src, STACK_BASE).Some? ==>
      View(CloneDirectory(m, src).value.0.mem, CloneDirectory(m, src).value.1, STACK_BASE)
        == View(m.mem, src, STACK_BASE)
  {
    var (m1, e, p) := CopyStack(m, src).value;
    CopyStackKeepsSound(m, src);
    CopyStackKeepsView(m, src, d, va);
    MapFreshView(m1, e, p, STACK_BASE, d, va);
    MapFreshView(m1, e, p, STACK_BASE, e, STACK_BASE);
    if View(m.mem, src, STACK_BASE).Some? { CopiedPage(m, src); }
  }

  /** With the intended copy, right after a fork the child sees the parent's stack
      page, in another frame. */
  lemma ForkCopiesStack(s: Sys, ctx: Context)
    requires Inv(s) && ForkTask(s, ctx).Some? && View(s.m.mem, s.tasks[s.cur].dir, STACK_BASE).Some?
    ensures var s' := ForkTask(s, ctx).value;
      var parent, child := s'.tasks[s.cur].dir, s'.tasks[|s.tasks|].dir;
      && View(s'.m.mem, child, STACK_BASE) == View(s'.m.mem, parent, STACK_BASE) == View(s.m.mem, parent, STACK_BASE)
      && Translate(s'.m.mem, child, STACK_BASE) != Translate(s'.m.mem, parent, STACK_BASE)
  {
    assert Inv(s);
    hide Sound, Kmalloc, CloneDirectory, View, Translate;
    var s' := ForkTask(s, ctx).value;
    var (m1, _) := Kmalloc(s.m, TASK_SIZE).value;
    var src := s.tasks[s.cur].dir;
    KmallocKeepsSound(s.m, TASK_SIZE);
    KmallocKeepsRoles(s.m, TASK_SIZE);
    KmallocKeepsView(s.m, TASK_SIZE, src, STACK_BASE);
    CloneViews(m1, src, src, STACK_BASE);
    ForkKeeps(s, ctx);
    StackFramesArePrivate(s'.m, s'.tasks[|s.tasks|].dir, src, STACK_BASE, STACK_BASE);
  }

  // ----------------------------------------------------------- noninterference

  /** What a step may do to page `va` of task `i`'s stack: the task's own stores,
      and a fresh page mapped there for it. */
  function OwnEffect(s: Sys, op: Op, i: nat, va: Word, view: Option<Frame>): Option<Frame> {
    match op
    case Map(id, virt) => if id == i && virt / PAGE == va / PAGE then Some(ZeroFrame()) else view
    case Write(wa, w) =>
      if s.cur == i && wa / PAGE == va / PAGE && view.Some? then Some(view.value[wa % PAGE / 4 := w]) else view
    case _ => view
  }

  lemma MapStepView(s: Sys, id: nat, virt: Word, i: nat, va: Word)
    requires Inv(s) && i < |s.tasks| && virt >= SLOT_SPAN && SlotOf(va) == STACK_SLOT
    requires MapTaskPage(s.m, s.tasks, id, virt).Some?
    ensures View(MapTaskPage(s.m, s.tasks, id, virt).value.mem, s.tasks[i].dir, va) ==
      OwnEffect(s, Map(id, virt), i, va, View(s.m.mem, s.tasks[i].dir, va))
  {
    var (m1, p) := AllocFrame(s.m, Page).value;
    AllocIsFresh(s.m, Page);
    AllocKeepsSound(s.m, Page);
    AllocKeepsView(s.m, Page, s.tasks[i].dir, va);
    var k := FindTask(s.tasks, id, 0);
    if k < |s.tasks| {
      MapFreshView(m1, s.tasks[k].dir, p, virt, s.tasks[i].dir, va);
    }
  }

  lemma WriteStepView(s: Sys, wa: Word, w: Word, i: nat, va: Word)
    requires Inv(s) && i < |s.tasks| && wa >= SLOT_SPAN && SlotOf(va) == STACK_SLOT
    requires WriteWord(s, wa, w).Some?
    ensures View(WriteWord(s, wa, w).value.m.mem, s.tasks[i].dir, va) ==
      OwnEffect(s, Write(wa, w), i, va, View(s.m.mem, s.tasks[i].dir, va))
  {
    var d, c := s.tasks[i].dir, s.tasks[s.cur].dir;
    var f := Translate(s.m.mem, c, wa).value;
    HighAddress(s.m, c, wa);
    SlotTable(s.m, d, STACK_SLOT);
    assert Translate(WriteWord(s, wa, w).value.m.mem, d, va) == Translate(s.m.mem, d, va);
    if Translate(s.m.mem, d, va) == Some(f) {
      if i != s.cur { StackFramesArePrivate(s.m, d, c, va, wa); }
      HighPagesAreDistinct(s.m, d, va, wa);
    } else if i == s.cur && wa / PAGE == va / PAGE {
      SamePage(wa, va);
    }
  }

  lemma ForkStepView(s: Sys, ctx: Context, i: nat, va: Word)
    requires Inv(s) && i < |s.tasks| && SlotOf(va) == STACK_SLOT && ForkTask(s, ctx).Some?
    ensures View(ForkTask(s, ctx).value.m.mem, s.tasks[i].dir, va) == View(s.m.mem, s.tasks[i].dir, va)
  {
    var (m1, _) := Kmalloc(s.m, TASK_SIZE).value;
    KmallocKeepsSound(s.m, TASK_SIZE);
    KmallocKeepsRoles(s.m, TASK_SIZE);
    KmallocKeepsView(s.m, TASK_SIZE, s.tasks[i].dir, va);
    CloneViews(m1, s.tasks[s.cur].dir, s.tasks[i].dir, va);
  }

  lemma StepView(s: Sys, op: Op, i: nat, va: Word)
    requires Inv(s) && Allowed(op) && Step(s, op).Some? && i < |s.tasks| && SlotOf(va) == STACK_SLOT
    ensures i < |Step(s, op).value.tasks| && Step(s, op).value.tasks[i].dir == s.tasks[i].dir
    ensures View(Step(s, op).value.m.mem, s.tasks[i].dir, va) ==
      OwnEffect(s, op, i, va, View(s.m.mem, s.tasks[i].dir, va))
  {
    match op
    case Alloc => AllocKeepsView(s.m, Page, s.tasks[i].dir, va);
    case Malloc(bytes) => KmallocKeepsView(s.m, bytes, s.tasks[i].dir, va);
    case Map(id, virt) => MapStepView(s, id, virt, i, va);
    case Fork(ctx) => ForkStepView(s, ctx, i, va);
    case Switch(_) =>
    case Write(wa, w) => WriteStepView(s, wa, w, i, va);
  }

  /** The view a task would have if only its own effects counted. */
  function OwnEffects(s: Sys, ops: seq<Op>, i: nat, va: Word, view: Option<Frame>): Option<Frame>
    requires s.cur < |s.tasks| && Run(s, ops).Some?
    decreases |ops|
  {
    if ops == [] then view else
    StepCur(s, ops[0]);
    OwnEffects(Step(s, ops[0]).value, ops[1..], i, va, OwnEffect(s, ops[0], i, va, view))
  }

  /** After any run, what a task sees on any page of its stack slot is what its
      own stores and mappings made of it: nothing any other task does shows. */
  lemma {:induction false} NonInterference(s: Sys, ops: seq<Op>, i: nat, va: Word)
    requires Inv(s) && AllAllowed(ops) && Run(s, ops).Some? && i < |s.tasks| && SlotOf(va) == STACK_SLOT
    ensures View(Run(s, ops).value.m.mem, s.tasks[i].dir, va) ==
      OwnEffects(s, ops, i, va, View(s.m.mem, s.tasks[i].dir, va))
    decreases |ops|
  {
    if ops != [] {
      StepKeeps(s, ops[0]);
      StepView(s, ops[0], i, va);
      NonInterference(Step(s, ops[0]).value, ops[1..], i, va);
    }
  }
}
