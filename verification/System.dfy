/** The running kernel: paging state plus the circular task list, and the steps
    that change them. The list is written as a sequence whose last task links
    back to the first. */
module System {
  import opened Options
  import opened Machine
  import opened Paging

  const TASK_SIZE := 52

  /** The registers a task's record keeps. */
  datatype Context = Context(eip: Word, esp: Word, ebp: Word,
                             eax: Word, ebx: Word, ecx: Word, edx: Word, esi: Word, edi: Word)

  /** `saved` is None until the record is first filled in. */
  datatype Task = Task(id: nat, dir: FrameNo, saved: Option<Context>)

  datatype Sys = Sys(m: Mach, tasks: seq<Task>, cur: nat, pid: nat)

  /** initTasks: the first task runs on the kernel's own directory. */
  function InitTasks(m: Mach): Option<Sys> {
    var (m1, _) :- Kmalloc(m, TASK_SIZE);
    Some(Sys(m1, [Task(0, m.kernelDir, None)], 0, 1))
  }

  /** The kernel before initTasks, as a task on the kernel's directory without a record. */
  function Early(m: Mach): Sys { Sys(m, [Task(0, m.kernelDir, None)], 0, 1) }

  /** What the kernel does before initTasks: it takes pages and heap blocks, maps
      pages in its own directory, and writes to them. */
  predicate EarlyOp(op: Op) {
    op.Alloc? || op.Malloc? || (op.Map? && op.id == 0) || op.Write?
  }

  /** One step of a run. Map takes its frame from allocPage; Write is a store by the running task. */
  datatype Op =
    | Alloc
    | Malloc(bytes: Word)
    | Map(id: nat, virt: Word)
    | Fork(ctx: Context)
    | Switch(ctx: Context)
    | Write(va: Word, w: Word)

  /** The first task at or after `i` with this id. */
  function FindTask(tasks: seq<Task>, id: nat, i: nat): (r: nat)
    requires i <= |tasks|
    ensures i <= r <= |tasks|
    ensures r < |tasks| ==> tasks[r].id == id
    ensures forall j :: i <= j < r ==> tasks[j].id != id
    decreases |tasks| - i
  {
    if i == |tasks| || tasks[i].id == id then i else FindTask(tasks, id, i + 1)
  }

  /** mapTaskPage(id, allocPage(), virt): an unknown id still uses up the frame. */
  function MapTaskPage(m: Mach, tasks: seq<Task>, id: nat, virt: Word): Option<Mach> {
    var (m1, p) :- AllocFrame(m, Page);
    var i := FindTask(tasks, id, 0);
    if i == |tasks| then Some(m1) else MapFresh(m1, tasks[i].dir, p, virt)
  }

  /** What fork allocates: a task record, then the child's directory. */
  function ForkMemory(m: Mach, src: FrameNo): Option<(Mach, FrameNo)> {
    var (m1, _) :- Kmalloc(m, TASK_SIZE);
    CloneDirectory(m1, src)
  }

  function ForkTask(s: Sys, ctx: Context): Option<Sys>
    requires s.cur < |s.tasks|
  {
    var (m1, d) :- ForkMemory(s.m, s.tasks[s.cur].dir);
    Some(AddChild(s.(m := m1), d, ctx))
  }

  /** The child's record, linked last, holds the context fork recorded. */
  function AddChild(s: Sys, d: FrameNo, ctx: Context): Sys {
    s.(tasks := s.tasks + [Task(s.pid, d, Some(ctx))], pid := s.pid + 1)
  }

  function Next(s: Sys): nat
    requires s.cur < |s.tasks|
  {
    if s.cur + 1 == |s.tasks| then 0 else s.cur + 1
  }

  /** switchTasks: nothing happens while there is one task. */
  function SwitchTasks(s: Sys, ctx: Context): Sys
    requires s.cur < |s.tasks|
  {
    if |s.tasks| == 1 then s else
    s.(tasks := s.tasks[s.cur := s.tasks[s.cur].(saved := Some(ctx))], cur := Next(s))
  }

  /** A store by the running task through its own directory. */
  function WriteWord(s: Sys, va: Word, w: Word): Option<Sys>
    requires s.cur < |s.tasks|
  {
    var f :- Translate(s.m.mem, s.tasks[s.cur].dir, va);
    Some(s.(m := s.m.(mem := Store(s.m.mem, f, va % PAGE / 4, w))))
  }

  function Step(s: Sys, op: Op): Option<Sys>
    requires s.cur < |s.tasks|
  {
    match op
    case Alloc =>
      var (m1, _) :- AllocFrame(s.m, Page); Some(s.(m := m1))
    case Malloc(bytes) =>
      var (m1, _) :- Kmalloc(s.m, bytes); Some(s.(m := m1))
    case Map(id, virt) =>
      var m1 :- MapTaskPage(s.m, s.tasks, id, virt); Some(s.(m := m1))
    case Fork(ctx) => ForkTask(s, ctx)
    case Switch(ctx) => Some(SwitchTasks(s, ctx))
    case Write(va, w) => WriteWord(s, va, w)
  }

  /** Requests of at most a page; maps and stores above the shared first table. */
  predicate Allowed(op: Op) {
    match op
    case Malloc(bytes) => bytes <= PAGE
    case Map(_, virt) => virt >= SLOT_SPAN
    case Write(va, _) => va >= SLOT_SPAN
    case _ => true
  }

  lemma StepCur(s: Sys, op: Op)
    requires s.cur < |s.tasks| && Step(s, op).Some?
    ensures Step(s, op).value.cur < |Step(s, op).value.tasks|
  {
  }

  /** A whole run; None when a step faults or no frame below 512 is clear. */
  function Run(s: Sys, ops: seq<Op>): (r: Option<Sys>)
    requires s.cur < |s.tasks|
    ensures r.Some? ==> r.value.cur < |r.value.tasks|
    decreases |ops|
  {
    if ops == [] then Some(s) else
    var s1 :- Step(s, ops[0]);
    StepCur(s, ops[0]);
    Run(s1, ops[1..])
  }

  /** The ring: ids count up from 0 in list order, `pid` is the next one. */
  ghost predicate Ring(s: Sys) {
    && s.cur < |s.tasks| == s.pid
    && (forall i :: 0 <= i < |s.tasks| ==> s.tasks[i].id == i)
  }

  /** Every task has a directory of its own; the first task's is the kernel's. */
  ghost predicate OwnDirectories(s: Sys) {
    && (forall i :: 0 <= i < |s.tasks| ==> IsDir(s.m, s.tasks[i].dir))
    && (forall i, j :: 0 <= i < j < |s.tasks| ==> s.tasks[i].dir != s.tasks[j].dir)
    && (|s.tasks| > 0 ==> s.tasks[0].dir == s.m.kernelDir)
  }

  ghost predicate Inv(s: Sys) {
    Sound(s.m) && Ring(s) && OwnDirectories(s)
  }
}
