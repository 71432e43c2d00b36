/** Who owns which frame, after any run from boot. */
module Frames {
  import opened Options
  import opened Machine
  import opened Paging
  import opened PagingInvariants
  import opened Ownership
  import opened System
  import opened SystemInvariants
  import opened Scheduling
  import opened Isolation

  /** From zeroed globals, any memory and any bitmap, the kernel boots, does `early`,
      starts its first task and runs `ops`. */
  ghost predicate Started(mem: Memory, used: set<nat>, early: seq<Op>, s0: Sys) {
    && 0 in used && (forall f: nat :: FREE_TOP <= f < WINDOW ==> f in used)
    && Boot(mem, used).Some? && AllAllowed(early) && (forall i :: 0 <= i < |early| ==> EarlyOp(early[i]))
    && Run(Early(Boot(mem, used).value), early).Some?
    && InitTasks(Run(Early(Boot(mem, used).value), early).value.m) == Some(s0)
  }

  ghost predicate RunsTo(mem: Memory, used: set<nat>, early: seq<Op>, ops: seq<Op>, s: Sys) {
    exists s0 :: Started(mem, used, early, s0) && s0.cur < |s0.tasks| && AllAllowed(ops) && Run(s0, ops) == Some(s)
  }

  lemma EarlyEstablishes(m: Mach)
    requires Sound(m)
    ensures Inv(Early(m))
  {
  }

  lemma StartedHolds(mem: Memory, used: set<nat>, early: seq<Op>, s0: Sys)
    requires Started(mem, used, early, s0)
    ensures Inv(s0) && Ready(s0)
  {
    hide Boot, InitTasks, Run, Sound, OwnDirectories;
    var m := Boot(mem, used).value;
    BootEstablishes(mem, used);
    EarlyEstablishes(m);
    RunKeeps(Early(m), early);
    InitTasksEstablishes(Run(Early(m), early).value.m);
    FirstTaskAlone(Run(Early(m), early).value.m);
  }

  /** Through any run the invariant holds, and every waiting task has a context to load. */
  lemma RunFromBoot(mem: Memory, used: set<nat>, early: seq<Op>, ops: seq<Op>, s: Sys)
    requires RunsTo(mem, used, early, ops, s)
    ensures Inv(s) && Ready(s)
  {
    hide Started, Run, Inv, Ready;
    var s0 :| Started(mem, used, early, s0) && s0.cur < |s0.tasks| && AllAllowed(ops) && Run(s0, ops) == Some(s);
    StartedHolds(mem, used, early, s0);
    RunKeeps(s0, ops);
    RunKeepsReady(s0, ops);
  }

  lemma FirstTaskAlone(m: Mach)
    requires InitTasks(m).Some?
    ensures Ready(InitTasks(m).value)
  {
  }

  /** Three clear frames below 512 are what the boot needs, and with them the
      first task starts too: its record fits into the first heap page. */
  lemma BootNeedsThree(mem: Memory, used: set<nat>)
    ensures Boot(mem, used).Some? <==> exists a: nat, b: nat, c: nat :: ThreeClear(used, a, b, c)
    ensures Boot(mem, used).Some? ==> InitTasks(Boot(mem, used).value).Some?
  {
    hide Boot, InitTasks, FirstClear;
    BootFrames(mem, used);
    var d := FirstClear(used, 0);
    var t := FirstClear(used + {d}, 0);
    var h := FirstClear(used + {d, t}, 0);
    if h < WINDOW {
      ClearAfter(used, d, t);
      ClearAfter(used + {d}, t, h);
      assert ThreeClear(used, d, t, h);
    }
    forall a: nat, b: nat, c: nat | ThreeClear(used, a, b, c) ensures h < WINDOW {
      ClearBound(used, a);
      ClearBound(used + {d}, b);
      ClearBound(used + {d, t}, c);
    }
  }

  lemma ClearBound(used: set<nat>, f: nat)
    requires f < WINDOW && f !in used
    ensures FirstClear(used, 0) <= f
  {
  }

  lemma ClearAfter(used: set<nat>, d: nat, t: nat)
    requires d == FirstClear(used, 0) && t == FirstClear(used + {d}, 0) && t < WINDOW
    ensures d < t
  {
    assert t !in used + {d};
    ClearBound(used, t);
  }

  /** The frames of the boot: directory, table, first heap page. */
  lemma BootFrames(mem: Memory, used: set<nat>)
    ensures var d := FirstClear(used, 0);
      var t := FirstClear(used + {d}, 0);
      Boot(mem, used).Some? <==> FirstClear(used + {d, t}, 0) < WINDOW
    ensures Boot(mem, used).Some? ==> InitTasks(Boot(mem, used).value).Some?
  {
    hide FirstClear;
    var d := FirstClear(used, 0);
    var t := FirstClear(used + {d}, 0);
    assert used + {d} + {t} == used + {d, t};
  }

  /** They are taken lowest first: the kernel's directory, its table, and the heap page. */
  lemma BootLayout(mem: Memory, used: set<nat>)
    requires Boot(mem, used).Some?
    ensures var m := Boot(mem, used).value; var d, t, h := m.kernelDir, LowTable(m), m.next / PAGE;
      && d < t < h < WINDOW && d !in used && t !in used && h !in used && m.used == used + {d, t, h}
      && (forall g: nat :: g < h && g != d && g != t ==> g in used)
      && m.next == h * PAGE && m.end == h * PAGE + PAGE && m.blocks == []
  {
    hide FirstClear;
    var d := FirstClear(used, 0);
    var t := FirstClear(used + {d}, 0);
    var h := FirstClear(used + {d, t}, 0);
    assert used + {d} + {t} == used + {d, t};
    ClearAfter(used, d, t);
    ClearAfter(used + {d}, t, h);
    BootValue(mem, used);
  }

  lemma BootValue(mem: Memory, used: set<nat>)
    requires Boot(mem, used).Some?
    ensures var m := Boot(mem, used).value;
      var d := FirstClear(used, 0);
      var t := FirstClear(used + {d}, 0);
      var h := FirstClear(used + {d} + {t}, 0);
      && m.kernelDir == d < WINDOW && m.used == used + {d} + {t} + {h} && t < WINDOW && h < WINDOW
      && m.mem[d][0] == t * PAGE + 3 && m.next == h * PAGE && m.end == h * PAGE + PAGE && m.blocks == []
  {
    hide FirstClear;
  }

  /** With them, and nothing else done first, the first task runs. */
  lemma ThreeStart(mem: Memory, used: set<nat>, a: nat, b: nat, c: nat)
    requires 0 in used && (forall f: nat :: FREE_TOP <= f < WINDOW ==> f in used) && ThreeClear(used, a, b, c)
    ensures Boot(mem, used).Some? && InitTasks(Boot(mem, used).value).Some?
    ensures RunsTo(mem, used, [], [], InitTasks(Boot(mem, used).value).value)
  {
    hide Boot, Kmalloc;
    BootNeedsThree(mem, used);
    assert Started(mem, used, [], InitTasks(Boot(mem, used).value).value);
  }

  predicate ThreeClear(used: set<nat>, a: nat, b: nat, c: nat) {
    a < b < c < WINDOW && a !in used && b !in used && c !in used
  }

  // ------------------------------------------- the four uses a frame can have

  ghost predicate TaskDirectory(s: Sys, f: FrameNo) {
    exists i :: 0 <= i < |s.tasks| && s.tasks[i].dir == f
  }

  ghost predicate ReferencedTable(s: Sys, f: FrameNo) {
    exists i, slot: SlotNo :: 0 <= i < |s.tasks| && s.m.mem[s.tasks[i].dir][slot] != 0
      && TableOf(s.m.mem, s.tasks[i].dir, slot) == f
  }

  ghost predicate HoldsBlocks(s: Sys, f: FrameNo) {
    exists i :: 0 <= i < |s.m.blocks| && s.m.blocks[i].frame == f
  }

  ghost predicate MappedPage(s: Sys, f: FrameNo) {
    exists i, va: Word :: 0 <= i < |s.tasks| && va >= SLOT_SPAN
      && Translate(s.m.mem, s.tasks[i].dir, va) == Some(f)
  }

  lemma DirectoryRole(s: Sys, f: FrameNo)
    requires Inv(s) && TaskDirectory(s, f)
    ensures f in s.m.role && s.m.role[f] == Directory
  {
  }

  lemma TableRole(s: Sys, f: FrameNo)
    requires Inv(s) && ReferencedTable(s, f)
    ensures f in s.m.role && s.m.role[f].Table?
  {
    var i, slot: SlotNo :| 0 <= i < |s.tasks| && s.m.mem[s.tasks[i].dir][slot] != 0
      && TableOf(s.m.mem, s.tasks[i].dir, slot) == f;
    SlotTable(s.m, s.tasks[i].dir, slot);
  }

  lemma HeapRole(s: Sys, f: FrameNo)
    requires Inv(s) && HoldsBlocks(s, f)
    ensures f in s.m.role && s.m.role[f] == Heap
  {
  }

  lemma PageRole(s: Sys, f: FrameNo)
    requires Inv(s) && MappedPage(s, f)
    ensures f in s.m.role && s.m.role[f].Mapped?
  {
    var i, va: Word :| 0 <= i < |s.tasks| && va >= SLOT_SPAN
      && Translate(s.m.mem, s.tasks[i].dir, va) == Some(f);
    HighAddress(s.m, s.tasks[i].dir, va);
  }

  /** A frame in use as directory, table, heap or mapped page has its bit set,
      was free at boot, and has exactly one of the four uses. */
  lemma OneUse(s: Sys, f: FrameNo)
    requires Inv(s)
    ensures TaskDirectory(s, f) || ReferencedTable(s, f) || HoldsBlocks(s, f) || MappedPage(s, f)
      ==> f in s.m.used && 0 < f < FREE_TOP
    ensures !(TaskDirectory(s, f) && (ReferencedTable(s, f) || HoldsBlocks(s, f) || MappedPage(s, f)))
    ensures !(ReferencedTable(s, f) && (HoldsBlocks(s, f) || MappedPage(s, f)))
    ensures !(HoldsBlocks(s, f) && MappedPage(s, f))
  {
    hide TaskDirectory, ReferencedTable, HoldsBlocks, MappedPage;
    if TaskDirectory(s, f) { DirectoryRole(s, f); }
    if ReferencedTable(s, f) { TableRole(s, f); }
    if HoldsBlocks(s, f) { HeapRole(s, f); }
    if MappedPage(s, f) { PageRole(s, f); }
  }

  // ------------------------------------------------------ never handed out twice

  /** From frames `used` in use, `log` was handed out: each frame once and none
      that was in use; exactly these came into use. */
  ghost predicate HandedOut(used: set<nat>, log: seq<FrameNo>, used': set<nat>) {
    && used <= used'
    && (forall i :: 0 <= i < |log| ==> log[i] !in used && log[i] in used')
    && (forall i, j :: 0 <= i < j < |log| ==> log[i] != log[j])
    && (forall f :: f in used' ==> f in used || f in log)
  }

  /** What happens between two states only hands out frames. */
  ghost predicate Grows(m: Mach, m': Mach) {
    m.log <= m'.log && HandedOut(m.used, m'.log[|m.log|..], m'.used)
  }

  lemma GrowsNot(m: Mach, m': Mach)
    requires m'.log == m.log && m'.used == m.used
    ensures Grows(m, m')
  {
    assert m'.log[|m.log|..] == [];
  }

  lemma GrowsTrans(m: Mach, m1: Mach, m2: Mach)
    requires Grows(m, m1) && Grows(m1, m2)
    ensures Grows(m, m2)
  {
    var a, b, c := m1.log[|m.log|..], m2.log[|m1.log|..], m2.log[|m.log|..];
    assert c == a + b;
    forall i, j | 0 <= i < j < |c| ensures c[i] != c[j] {
      if i < |a| { assert a[i] in m1.used; }
    }
    assert forall f :: f in a || f in b ==> f in c;
  }

  lemma AllocGrows(m: Mach, role: Role)
    requires AllocFrame(m, role).Some?
    ensures Grows(m, AllocFrame(m, role).value.0)
  {
    var (m', f) := AllocFrame(m, role).value;
    assert m'.log[|m.log|..] == [f];
  }

  lemma HeapPageGrows(m: Mach)
    requires HeapPage(m).Some?
    ensures Grows(m, HeapPage(m).value)
  {
    hide Grows;
    AllocGrows(m, Heap);
    var m1 := AllocFrame(m, Heap).value.0;
    GrowsNot(m1, HeapPage(m).value);
    GrowsTrans(m, m1, HeapPage(m).value);
  }

  lemma KmallocGrows(m: Mach, bytes: Word)
    requires Kmalloc(m, bytes).Some?
    ensures Grows(m, Kmalloc(m, bytes).value.0)
  {
    hide Grows, HeapPage;
    var m1 := HeapFor(m, bytes).value;
    if Wrap(m.next + bytes) > m.end { HeapPageGrows(m); } else { GrowsNot(m, m1); }
    GrowsNot(m1, Kmalloc(m, bytes).value.0);
    GrowsTrans(m, m1, Kmalloc(m, bytes).value.0);
  }

  lemma MapFreshGrows(m: Mach, dir: FrameNo, p: FrameNo, virt: Word)
    requires MapFresh(m, dir, p, virt).Some?
    ensures Grows(m, MapFresh(m, dir, p, virt).value) && ObtainTable(m, dir, SlotOf(virt)).Some?
  {
    hide Grows, AllocFrame, Install, Unmap, SlotOf, Masked;
    var (m1, t) := ObtainTable(m, dir, SlotOf(virt)).value;
    if Masked(m.mem[dir][SlotOf(virt)]) == 0 { AllocGrows(m, Table(SlotOf(virt), dir)); } else { GrowsNot(m, m1); }
    GrowsNot(m1, MapFresh(m, dir, p, virt).value);
    GrowsTrans(m, m1, MapFresh(m, dir, p, virt).value);
  }

  lemma MapGrows(s: Sys, id: nat, virt: Word)
    requires MapTaskPage(s.m, s.tasks, id, virt).Some?
    ensures Grows(s.m, MapTaskPage(s.m, s.tasks, id, virt).value)
  {
    hide Grows, MapFresh, AllocFrame;
    var (m1, p) := AllocFrame(s.m, Page).value;
    AllocGrows(s.m, Page);
    var i := FindTask(s.tasks, id, 0);
    if i < |s.tasks| {
      MapFreshGrows(m1, s.tasks[i].dir, p, virt);
      GrowsTrans(s.m, m1, MapFresh(m1, s.tasks[i].dir, p, virt).value);
    }
  }

  lemma CopyStackGrows(m: Mach, src: FrameNo)
    requires CopyStack(m, src).Some?
    ensures Grows(m, CopyStack(m, src).value.0)
  {
    hide Grows, AllocFrame;
    var (m1, d) := NewDirectory(m, src).value;
    var m0 := AllocFrame(m, Page).value.0;
    AllocGrows(m, Page);
    GrowsNot(m0, m1);
    var m2 := AllocFrame(m1, Page).value.0;
    AllocGrows(m1, Page);
    GrowsNot(m2, CopyStack(m, src).value.0);
    GrowsTrans(m, m0, m1);
    GrowsTrans(m, m1, m2);
    GrowsTrans(m, m2, CopyStack(m, src).value.0);
  }

  lemma CloneGrows(m: Mach, src: FrameNo)
    requires CloneDirectory(m, src).Some?
    ensures Grows(m, CloneDirectory(m, src).value.0)
  {
    hide Grows, CopyStack, MapFresh;
    var (m1, d, p) := CopyStack(m, src).value;
    CopyStackGrows(m, src);
    MapFreshGrows(m1, d, p, STACK_BASE);
    GrowsTrans(m, m1, CloneDirectory(m, src).value.0);
  }

  lemma StepGrows(s: Sys, op: Op)
    requires s.cur < |s.tasks| && Step(s, op).Some?
    ensures Grows(s.m, Step(s, op).value.m)
  {
    hide Grows, AllocFrame, Kmalloc, MapTaskPage, CloneDirectory;
    match op
    case Alloc => AllocGrows(s.m, Page);
    case Malloc(bytes) => KmallocGrows(s.m, bytes);
    case Map(id, virt) => MapGrows(s, id, virt);
    case Fork(ctx) =>
      var m1 := Kmalloc(s.m, TASK_SIZE).value.0;
      KmallocGrows(s.m, TASK_SIZE);
      CloneGrows(m1, s.tasks[s.cur].dir);
      GrowsTrans(s.m, m1, Step(s, op).value.m);
    case Switch(_) => GrowsNot(s.m, Step(s, op).value.m);
    case Write(_, _) => GrowsNot(s.m, Step(s, op).value.m);
  }

  /** Through any run, no frame is handed out twice or while it is in use: not by
      different steps, nor inside one kmalloc, map or fork. */
  lemma {:induction false} RunGrows(s: Sys, ops: seq<Op>)
    requires s.cur < |s.tasks| && Run(s, ops).Some?
    ensures Grows(s.m, Run(s, ops).value.m)
    decreases |ops|
  {
    hide Step, Grows;
    if ops == [] {
      GrowsNot(s.m, s.m);
    } else {
      StepCur(s, ops[0]);
      StepGrows(s, ops[0]);
      RunGrows(Step(s, ops[0]).value, ops[1..]);
      GrowsTrans(s.m, Step(s, ops[0]).value.m, Run(s, ops).value.m);
    }
  }

  lemma BootGrows(mem: Memory, used: set<nat>)
    requires Boot(mem, used).Some?
    ensures HandedOut(used, Boot(mem, used).value.log, Boot(mem, used).value.used)
  {
    hide Grows, HandedOut, AllocFrame, HeapPage;
    var m0 := Mach(mem, used, 0, 0, 0, 0, map[], [], []);
    var (m1, d) := AllocFrame(m0, Directory).value;
    var m2 := m1.(kernelDir := d);
    var m3 := AllocFrame(m2, Table(0, d)).value.0;
    var m4 := KernelTables(mem, used).value;
    AllocGrows(m0, Directory);
    GrowsNot(m1, m2);
    AllocGrows(m2, Table(0, d));
    GrowsNot(m3, m4);
    HeapPageGrows(m4);
    GrowsTrans(m0, m1, m2);
    GrowsTrans(m0, m2, m3);
    GrowsTrans(m0, m3, m4);
    GrowsTrans(m0, m4, Boot(mem, used).value);
    FromNothing(m0, Boot(mem, used).value);
  }

  lemma FromNothing(m: Mach, m': Mach)
    requires Grows(m, m') && m.log == []
    ensures HandedOut(m.used, m'.log, m'.used)
  {
    assert m'.log[0..] == m'.log;
  }

  // ---------------------------------------------------- after any run from boot

  /** A state some run from boot reaches. */
  ghost predicate Reachable(s: Sys) {
    exists mem: Memory, used: set<nat>, early: seq<Op>, ops: seq<Op> :: RunsTo(mem, used, early, ops, s)
  }

  lemma ReachableHolds(s: Sys)
    requires Reachable(s)
    ensures Inv(s) && Ready(s)
  {
    hide RunsTo, Inv, Ready;
    var mem: Memory, used: set<nat>, early: seq<Op>, ops: seq<Op> :| RunsTo(mem, used, early, ops, s);
    RunFromBoot(mem, used, early, ops, s);
  }

  /** From boot through any run, every frame allocPage ever returned was clear
      then and is returned once only; no other frame comes into use. */
  lemma NeverHandedOutTwice(mem: Memory, used: set<nat>, early: seq<Op>, ops: seq<Op>, s: Sys)
    requires RunsTo(mem, used, early, ops, s)
    ensures HandedOut(used, s.m.log, s.m.used)
  {
    hide Boot, Kmalloc, Run, HandedOut, Grows;
    var s0 :| Started(mem, used, early, s0) && s0.cur < |s0.tasks| && AllAllowed(ops) && Run(s0, ops) == Some(s);
    var m := Boot(mem, used).value;
    var m1 := Run(Early(m), early).value.m;
    BootGrows(mem, used);
    RunGrows(Early(m), early);
    KmallocGrows(m1, TASK_SIZE);
    RunGrows(s0, ops);
    GrowsTrans(m, m1, s0.m);
    GrowsTrans(m, s0.m, s.m);
    HandedOutTrans(used, m, s.m);
  }

  lemma HandedOutTrans(used: set<nat>, m: Mach, m': Mach)
    requires HandedOut(used, m.log, m.used) && Grows(m, m')
    ensures HandedOut(used, m'.log, m'.used)
  {
    var a, b := m.log, m'.log[|m.log|..];
    assert m'.log == a + b;
    forall i, j | 0 <= i < j < |m'.log| ensures m'.log[i] != m'.log[j] {
      if i < |a| { assert a[i] in m.used; }
    }
  }

  /** All kmalloc blocks are inside one heap frame each, and never overlap. */
  lemma BlocksAfterAnyRun(s: Sys, i: nat, j: nat)
    requires Reachable(s) && i < j < |s.m.blocks|
    ensures Inside(s.m.blocks[i]) && Inside(s.m.blocks[j]) && Disjoint(s.m.blocks[i], s.m.blocks[j])
  {
    ReachableHolds(s);
  }

  /** In every task's directory, the kernel's own frames and the clear ones are
      at their own address, so the kernel's stores reach the frames they name. */
  lemma WindowAfterAnyRun(s: Sys, i: nat, x: FrameNo, va: Word)
    requires Reachable(s) && i < |s.tasks| && KernelFrame(s.m, x) && va / PAGE == x
    ensures Translate(s.m.mem, s.tasks[i].dir, va) == Some(x)
  {
    ReachableHolds(s);
    KernelFramesReached(s.m, s.tasks[i].dir, x, va);
  }

  /** A slot of a task's directory is empty, or the kernel's outside the stack
      slot, or holds a table no other task points to from anywhere. */
  lemma SharingAfterAnyRun(s: Sys, i: nat, slot: SlotNo, j: nat, slot': SlotNo)
    requires Reachable(s) && i < |s.tasks| && j < |s.tasks| && i != j
    ensures var d, d' := s.tasks[i].dir, s.tasks[j].dir;
      || s.m.mem[d][slot] == 0
      || (slot != STACK_SLOT && s.m.mem[d][slot] == s.m.mem[s.tasks[0].dir][slot])
      || s.m.mem[d'][slot'] == 0 || TableOf(s.m.mem, d, slot) != TableOf(s.m.mem, d', slot')
  {
    ReachableHolds(s);
    SharingOfTables(s.m, s.tasks[i].dir, slot, s.tasks[j].dir, slot');
  }

  /** No address of one task reaches a frame behind another task's stack slot. */
  lemma StacksAfterAnyRun(s: Sys, i: nat, j: nat, va: Word, va': Word)
    requires Reachable(s) && i < |s.tasks| && j < |s.tasks| && i != j && SlotOf(va) == STACK_SLOT
    requires Translate(s.m.mem, s.tasks[i].dir, va).Some?
    ensures Translate(s.m.mem, s.tasks[j].dir, va') != Translate(s.m.mem, s.tasks[i].dir, va)
  {
    ReachableHolds(s);
    StackFramesArePrivate(s.m, s.tasks[i].dir, s.tasks[j].dir, va, va');
  }
}
