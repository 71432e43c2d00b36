/** The kernel invariant holds at boot and after every run. */
module SystemInvariants {
  import opened Options
  import opened Machine
  import opened Paging
  import opened PagingInvariants
  import opened Mapping
  import opened Ownership
  import opened System

  /** Roles are for ever, except that a page may later be mapped. */
  ghost predicate RolesKept(m: Mach, m': Mach) {
    && m'.kernelDir == m.kernelDir
    && (forall f: FrameNo :: f in m.role ==>
      (f in m'.role && (m'.role[f] == m.role[f] || (m.role[f] == Page && m'.role[f].Mapped?))))
  }

  lemma InitTasksEstablishes(m: Mach)
    requires Sound(m) && InitTasks(m).Some?
    ensures Inv(InitTasks(m).value)
  {
    KmallocKeepsSound(m, TASK_SIZE);
    KmallocKeepsRoles(m, TASK_SIZE);
  }

  lemma KmallocKeepsRoles(m: Mach, bytes: Word)
    requires Owned(m) && Kmalloc(m, bytes).Some?
    ensures RolesKept(m, Kmalloc(m, bytes).value.0)
  {
    if Wrap(m.next + bytes) > m.end { AllocIsFresh(m, Heap); }
  }

  lemma CopyStackRoles(m: Mach, src: FrameNo)
    requires Sound(m) && IsDir(m, src) && CopyStack(m, src).Some?
    ensures var (m', d, p) := CopyStack(m, src).value;
      d !in m.role && p !in m.role && p in m'.role && m'.role[p] == Page && RolesKept(m, m')
  {
    var (m1, d) := NewDirectory(m, src).value;
    AllocIsFresh(m, Page);
    NewDirectoryKeepsSound(m, src);
    AllocIsFresh(m1, Page);
  }

  lemma MapFreshKeepsKernel(m: Mach, dir: FrameNo, p: FrameNo, virt: Word)
    requires Sound(m) && IsDir(m, dir) && p in m.role && m.role[p] == Page && virt >= SLOT_SPAN
    requires ObtainTable(m, dir, SlotOf(virt)).Some?
    ensures RolesKept(m, MapFresh(m, dir, p, virt).value)
  {
    MapFreshKeepsRoles(m, dir, p, virt);
    MapFreshWrites(m, dir, p, virt);
    ObtainedTable(m, dir, SlotOf(virt));
  }

  lemma CloneKeepsRoles(m: Mach, src: FrameNo)
    requires Sound(m) && IsDir(m, src) && CloneDirectory(m, src).Some?
    ensures RolesKept(m, CloneDirectory(m, src).value.0) && CloneDirectory(m, src).value.1 !in m.role
  {
    var (m1, d, p) := CopyStack(m, src).value;
    CopyStackKeepsSound(m, src);
    CopyStackRoles(m, src);
    assert CloneDirectory(m, src) == Some((MapFresh(m1, d, p, STACK_BASE).value, d));
    MapFreshKeepsKernel(m1, d, p, STACK_BASE);
    RolesKeptTrans(m, m1, MapFresh(m1, d, p, STACK_BASE).value);
  }

  lemma RolesKeptTrans(m: Mach, m1: Mach, m2: Mach)
    requires RolesKept(m, m1) && RolesKept(m1, m2)
    ensures RolesKept(m, m2)
  {
  }

  lemma MapTaskPageKeeps(s: Sys, id: nat, virt: Word)
    requires Inv(s) && virt >= SLOT_SPAN && MapTaskPage(s.m, s.tasks, id, virt).Some?
    ensures Sound(MapTaskPage(s.m, s.tasks, id, virt).value)
    ensures RolesKept(s.m, MapTaskPage(s.m, s.tasks, id, virt).value)
  {
    var (m1, p) := AllocFrame(s.m, Page).value;
    AllocIsFresh(s.m, Page);
    AllocKeepsSound(s.m, Page);
    var i := FindTask(s.tasks, id, 0);
    if i < |s.tasks| {
      assert IsDir(s.m, s.tasks[i].dir);
      MapFreshKeepsSound(m1, s.tasks[i].dir, p, virt);
      MapFreshKeepsKernel(m1, s.tasks[i].dir, p, virt);
    }
  }

  /** Directories stay directories. */
  lemma DirectoriesKept(s: Sys, m': Mach)
    requires OwnDirectories(s) && RolesKept(s.m, m')
    ensures OwnDirectories(s.(m := m'))
  {
  }

  /** A new task with a directory of its own, appended to the ring. */
  lemma AddTask(s: Sys, m': Mach, task: Task)
    requires Ring(s) && OwnDirectories(s) && Sound(m') && RolesKept(s.m, m')
    requires task.id == s.pid && task.dir !in s.m.role && IsDir(m', task.dir)
    ensures Inv(s.(m := m', tasks := s.tasks + [task], pid := s.pid + 1))
  {
    DirectoriesKept(s, m');
  }

  lemma ForkKeeps(s: Sys, ctx: Context)
    requires Inv(s) && ForkTask(s, ctx).Some?
    ensures Inv(ForkTask(s, ctx).value) && RolesKept(s.m, ForkTask(s, ctx).value.m)
  {
    var (m1, _) := Kmalloc(s.m, TASK_SIZE).value;
    var src := s.tasks[s.cur].dir;
    KmallocKeepsSound(s.m, TASK_SIZE);
    KmallocKeepsRoles(s.m, TASK_SIZE);
    DirectoriesKept(s, m1);
    var (m2, d) := CloneDirectory(m1, src).value;
    CloneKeepsSound(m1, src);
    CloneKeepsRoles(m1, src);
    AddTask(s.(m := m1), m2, Task(s.pid, d, Some(ctx)));
  }

  /** A store above the first table lands in a page handed out for that very entry. */
  lemma HighAddress(m: Mach, dir: FrameNo, va: Word)
    requires Structure(m) && Pages(m) && IsDir(m, dir) && va >= SLOT_SPAN && Translate(m.mem, dir, va).Some?
    ensures var f := Translate(m.mem, dir, va).value;
      f in m.role && m.role[f] == Mapped(m.mem[dir][SlotOf(va)] / PAGE, IndexOf(va))
  {
    SlotTable(m, dir, SlotOf(va));
    assert SlotOk(m, dir, SlotOf(va));
    SlotTable(m, m.kernelDir, 0);
    assert SlotOk(m, m.kernelDir, 0);
    assert PageOk(m, m.mem[dir][SlotOf(va)] / PAGE, IndexOf(va));
  }

  lemma WriteKeeps(s: Sys, va: Word, w: Word)
    requires Inv(s) && va >= SLOT_SPAN && WriteWord(s, va, w).Some?
    ensures Inv(WriteWord(s, va, w).value) && RolesKept(s.m, WriteWord(s, va, w).value.m)
  {
    var dir := s.tasks[s.cur].dir;
    HighAddress(s.m, dir, va);
    var f := Translate(s.m.mem, dir, va).value;
    WriteKeepsSound(s.m, f, s.m.mem[f][va % PAGE / 4 := w]);
  }

  /** Steps that leave the task list alone. */
  lemma SameTasks(s: Sys, m': Mach)
    requires Ring(s) && OwnDirectories(s) && Sound(m') && RolesKept(s.m, m')
    ensures Inv(s.(m := m'))
  {
    DirectoriesKept(s, m');
  }

  lemma SwitchKeeps(s: Sys, ctx: Context)
    requires Inv(s)
    ensures Inv(SwitchTasks(s, ctx)) && SwitchTasks(s, ctx).m == s.m
  {
  }

  /** Every step keeps the invariant and every role. */
  lemma StepKeeps(s: Sys, op: Op)
    requires Inv(s) && Allowed(op) && Step(s, op).Some?
    ensures Inv(Step(s, op).value) && RolesKept(s.m, Step(s, op).value.m)
  {
    match op
    case Alloc =>
      AllocIsFresh(s.m, Page);
      AllocKeepsSound(s.m, Page);
      SameTasks(s, AllocFrame(s.m, Page).value.0);
    case Malloc(bytes) =>
      KmallocKeepsSound(s.m, bytes);
      KmallocKeepsRoles(s.m, bytes);
      SameTasks(s, Kmalloc(s.m, bytes).value.0);
    case Map(id, virt) =>
      MapTaskPageKeeps(s, id, virt);
      SameTasks(s, MapTaskPage(s.m, s.tasks, id, virt).value);
    case Fork(ctx) => ForkKeeps(s, ctx);
    case Switch(ctx) => SwitchKeeps(s, ctx);
    case Write(va, w) => WriteKeeps(s, va, w);
  }

  ghost predicate AllAllowed(ops: seq<Op>) {
    forall i :: 0 <= i < |ops| ==> Allowed(ops[i])
  }

  /** The invariant and all roles survive every run. */
  lemma {:induction false} RunKeeps(s: Sys, ops: seq<Op>)
    requires Inv(s) && AllAllowed(ops) && Run(s, ops).Some?
    ensures Inv(Run(s, ops).value) && RolesKept(s.m, Run(s, ops).value.m)
    decreases |ops|
  {
    if ops != [] {
      StepKeeps(s, ops[0]);
      RunKeeps(Step(s, ops[0]).value, ops[1..]);
    }
  }
}
