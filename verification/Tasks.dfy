/** task.c: the circular list of task records, changed in place. */
module Tasks {
  import opened Options
  import opened Machine
  import opened Paging
  import opened PagingInvariants
  import opened Ownership
  import opened Kernel
  import opened System
  import opened SystemInvariants

  class TaskRecord {
    var id: nat
    var pageDir: FrameNo
    var saved: Option<Context>
    var nextTask: TaskRecord

    constructor (id: nat, pageDir: FrameNo)
      ensures this.id == id && this.pageDir == pageDir && saved == None && nextTask == this
    {
      this.id, this.pageDir, saved := id, pageDir, None;
      nextTask := this;
    }

    function Value(): Task
      reads this
    {
      Task(id, pageDir, saved)
    }
  }

  class Scheduler {
    const pager: Pager
    var firstTask: TaskRecord?
    var currentTask: TaskRecord?
    var pid: nat
    ghost var ring: seq<TaskRecord>
    ghost var tasks: seq<Task>
    ghost var cur: nat

    /** The abstract state: paging, the tasks in list order, who runs, the next id. */
    ghost function State(): Sys
      reads this, pager
    {
      Sys(pager.Abs(), tasks, cur, pid)
    }

    /** The records form one cycle from `firstTask` and hold the abstract tasks. */
    ghost predicate Linked()
      reads this, ring
    {
      && |ring| == |tasks| && cur < |ring|
      && firstTask == ring[0] && currentTask == ring[cur]
      && (forall i :: 0 <= i < |ring| ==> ring[i].nextTask == ring[if i + 1 == |ring| then 0 else i + 1])
      && (forall i :: 0 <= i < |ring| ==> ring[i].Value() == tasks[i])
      && (forall i, j :: 0 <= i < j < |ring| ==> ring[i] != ring[j])
    }

    ghost predicate Valid()
      reads this, ring, pager, pager.pageBitmap
    {
      && Linked() && pager.BitmapOk() && pager.paging
      && Inv(State()) && pager.cr3 == tasks[cur].dir
    }

    lemma PagerValid()
      requires Valid()
      ensures pager.Valid()
    {
      assert IsDir(State().m, tasks[cur].dir);
    }

    /** initTasks */
    constructor (pager: Pager)
      requires pager.Valid() && pager.cr3 == pager.pageDirectory && InitTasks(pager.Abs()).Some?
      modifies pager, pager.pageBitmap
      ensures Valid() && fresh(ring) && this.pager == pager && Some(State()) == InitTasks(old(pager.Abs()))
    {
      hide Sound, Kmalloc;
      InitTasksEstablishes(pager.Abs());
      var _ := pager.Malloc(TASK_SIZE);
      var task := new TaskRecord(0, pager.pageDirectory);
      this.pager := pager;
      firstTask, currentTask, pid := task, task, 1;
      ring, tasks, cur := [task], [Task(0, pager.pageDirectory, None)], 0;
    }

    /** getpid */
    method GetPid() returns (id: nat)
      requires Valid()
      ensures id == cur && id < pid
    {
      id := currentTask.id;
      assert currentTask.Value() == tasks[cur] && tasks[cur].id == cur;
    }

    /** The walk fork makes, from the running task to the last in the list. */
    method LastTask() returns (last: TaskRecord)
      requires Linked()
      ensures last == ring[|ring| - 1]
    {
      last := currentTask;
      ghost var i := cur;
      while last.nextTask != firstTask
        invariant i < |ring| && last == ring[i]
        decreases |ring| - i
      {
        assert ring[i].nextTask == ring[if i + 1 == |ring| then 0 else i + 1];
        last := last.nextTask;
        i := i + 1;
      }
      assert ring[i].nextTask == ring[if i + 1 == |ring| then 0 else i + 1];
    }

    /** Link a new record after the last one. */
    method Append(newTask: TaskRecord)
      requires Linked() && newTask !in ring && newTask.nextTask == firstTask
      modifies this`ring, this`tasks, ring
      ensures Linked() && ring == old(ring) + [newTask] && tasks == old(tasks) + [newTask.Value()]
    {
      var last := LastTask();
      last.nextTask := newTask;
      ring, tasks := ring + [newTask], tasks + [newTask.Value()];
    }

    /** The allocations of fork. */
    method AllocateChild(src: FrameNo) returns (dir: FrameNo)
      requires pager.Valid() && IsDir(pager.Abs(), src) && ForkMemory(pager.Abs(), src).Some?
      modifies pager`mem, pager`role, pager`used, pager`log, pager`nextAddress, pager`endOfPage, pager`numHeapPages
      modifies pager`blocks, pager.pageBitmap
      ensures pager.BitmapOk() && Some((pager.Abs(), dir)) == ForkMemory(old(pager.Abs()), src)
    {
      hide Window, Pages, Blocks, Slots, Tables, CloneDirectory;
      KmallocKeepsSound(pager.Abs(), TASK_SIZE);
      KmallocKeepsDirectory(pager.Abs(), TASK_SIZE, src);
      KmallocKeepsDirectory(pager.Abs(), TASK_SIZE, pager.cr3);
      var _ := pager.Malloc(TASK_SIZE);
      dir := pager.ClonePageDirectory(src);
    }

    /** A linked record for the child of the running task. */
    method AppendChild(dir: FrameNo) returns (newTask: TaskRecord)
      requires Linked()
      modifies this`pid, this`ring, this`tasks, ring
      ensures Linked() && ring == old(ring) + [newTask] && fresh(newTask) && newTask.id == old(pid)
      ensures pid == old(pid) + 1 && tasks == old(tasks) + [Task(old(pid), dir, None)]
    {
      newTask := new TaskRecord(pid, dir);
      newTask.nextTask := firstTask;
      pid := pid + 1;
      Append(newTask);
    }

    /** The registers fork stores in the child's record. */
    method FillChild(newTask: TaskRecord, ctx: Context)
      requires Linked() && newTask == ring[|ring| - 1]
      modifies this`tasks, newTask
      ensures Linked() && newTask.id == old(newTask.id)
      ensures tasks == old(tasks)[|ring| - 1 := old(tasks[|ring| - 1]).(saved := Some(ctx))]
    {
      newTask.saved := Some(ctx);
      tasks := tasks[|ring| - 1 := tasks[|ring| - 1].(saved := Some(ctx))];
    }

    /** The end of fork: the running task is not the child, so it fills in the
        child's record and returns the child's id. */
    method LinkChild(dir: FrameNo, ctx: Context) returns (id: nat)
      requires Linked() && currentTask.id < pid
      modifies this`pid, this`ring, this`tasks, ring
      ensures Linked() && id == old(pid) && State() == AddChild(old(State()), dir, ctx)
      ensures ring == old(ring) + [ring[|old(ring)|]] && fresh(ring[|old(ring)|])
    {
      assert currentTask.Value() == tasks[cur];
      var newTask := AppendChild(dir);
      assert currentTask.Value() == tasks[cur];
      id := 0;
      if currentTask.id != pid - 1 {
        FillChild(newTask, ctx);
        assert tasks == old(tasks) + [Task(old(pid), dir, Some(ctx))];
        id := newTask.id;
      }
    }

    /** fork, up to the parent's return: the child is linked last and its record
        holds the context fork recorded. */
    method Fork(ctx: Context) returns (id: nat)
      requires Valid() && ForkTask(State(), ctx).Some?
      modifies this`pid, this`ring, this`tasks, ring, pager.pageBitmap
      modifies pager`mem, pager`role, pager`used, pager`log, pager`nextAddress, pager`endOfPage
      modifies pager`numHeapPages, pager`blocks
      ensures Valid() && Some(State()) == ForkTask(old(State()), ctx)
      ensures id == old(pid) && ring == old(ring) + [ring[|old(ring)|]] && fresh(ring[|old(ring)|])
    {
      hide Sound, CloneDirectory, Kmalloc;
      ForkKeeps(State(), ctx);
      PagerValid();
      assert currentTask.Value() == tasks[cur];
      assert tasks[cur].id == cur;
      id := ForkLinked(ctx);
    }

    method ForkLinked(ctx: Context) returns (id: nat)
      requires Linked() && pager.Valid() && IsDir(pager.Abs(), tasks[cur].dir)
      requires currentTask.pageDir == tasks[cur].dir && currentTask.id < pid && ForkTask(State(), ctx).Some?
      modifies this`pid, this`ring, this`tasks, ring, pager.pageBitmap
      modifies pager`mem, pager`role, pager`used, pager`log, pager`nextAddress, pager`endOfPage
      modifies pager`numHeapPages, pager`blocks
      ensures Linked() && pager.BitmapOk() && Some(State()) == ForkTask(old(State()), ctx)
      ensures id == old(pid) && ring == old(ring) + [ring[|old(ring)|]] && fresh(ring[|old(ring)|])
    {
      hide Sound, CloneDirectory, Kmalloc;
      ghost var s := State();
      var dir := AllocateChild(currentTask.pageDir);
      ForkValue(s, ctx, pager.Abs(), dir, State());
      id := LinkChild(dir, ctx);
    }

    /** Store the running task's context in its record. */
    method SaveContext(ctx: Context)
      requires Linked()
      modifies this`tasks, ring
      ensures Linked() && tasks == old(tasks)[cur := old(tasks)[cur].(saved := Some(ctx))]
    {
      currentTask.saved := Some(ctx);
      tasks := tasks[cur := tasks[cur].(saved := Some(ctx))];
    }

    /** Make the next record the running task's. */
    method MoveOn()
      requires Linked()
      modifies this`currentTask, this`cur
      ensures Linked() && cur == (if old(cur) + 1 == |ring| then 0 else old(cur) + 1)
    {
      assert ring[cur].nextTask == ring[if cur + 1 == |ring| then 0 else cur + 1];
      currentTask := currentTask.nextTask;
      cur := if cur + 1 == |ring| then 0 else cur + 1;
    }

    method Advance(ctx: Context)
      requires Linked() && |ring| > 1
      modifies this`currentTask, this`tasks, this`cur, ring
      ensures Linked() && State() == SwitchTasks(old(State()), ctx)
    {
      SaveContext(ctx);
      MoveOn();
    }

    /** switchTasks, up to the jump: what is loaded is the next task's record. */
    method Switch(ctx: Context) returns (loaded: Option<Context>)
      requires Valid()
      modifies this`currentTask, this`tasks, this`cur, pager`cr3, ring
      ensures Valid() && ring == old(ring) && State() == SwitchTasks(old(State()), ctx)
      ensures loaded == if |ring| == 1 then None else tasks[cur].saved
    {
      hide Sound;
      SwitchKeeps(State(), ctx);
      assert ring[0].nextTask == ring[if 1 == |ring| then 0 else 1];
      if firstTask.nextTask == firstTask {
        return None;
      }
      hide SwitchTasks;
      Advance(ctx);
      assert currentTask.Value() == tasks[cur];
      pager.cr3 := currentTask.pageDir;
      loaded := currentTask.saved;
    }

    /** The walk mapTaskPage makes from the first task. */
    method FindRecord(id: nat) returns (record: TaskRecord, ghost i: nat)
      requires Linked()
      ensures i < |ring| && record == ring[i]
      ensures if FindTask(tasks, id, 0) < |ring| then i == FindTask(tasks, id, 0) else record.id != id
    {
      record, i := firstTask, 0;
      while record.id != id && record.nextTask != firstTask
        invariant i < |ring| && record == ring[i]
        invariant forall j :: 0 <= j < i ==> tasks[j].id != id
        decreases |ring| - i
      {
        assert ring[i].Value() == tasks[i];
        assert ring[i].nextTask == ring[if i + 1 == |ring| then 0 else i + 1];
        record := record.nextTask;
        i := i + 1;
      }
      assert ring[i].Value() == tasks[i];
      assert ring[i].nextTask == ring[if i + 1 == |ring| then 0 else i + 1];
    }

    /** mapTaskPage(id, allocPage(), virt) */
    method MapTaskPageAt(id: nat, virt: Word) returns (found: bool)
      requires Valid() && virt >= SLOT_SPAN && MapTaskPage(State().m, tasks, id, virt).Some?
      modifies pager`mem, pager`role, pager`used, pager`log, pager.pageBitmap
      ensures Valid() && Some(State().m) == MapTaskPage(old(State().m), tasks, id, virt)
      ensures found <==> id < pid
    {
      hide Sound, MapTaskPage;
      BeforeMapTask(State(), id, virt);
      PagerValid();
      found := MapLinked(id, virt);
    }

    method MapLinked(id: nat, virt: Word) returns (found: bool)
      requires Linked() && pager.Valid() && virt >= SLOT_SPAN
      requires MapTaskReady(State(), id, virt)
      modifies pager`mem, pager`role, pager`used, pager`log, pager.pageBitmap
      ensures pager.BitmapOk() && Some(State().m) == MapTaskPage(old(State().m), tasks, id, virt)
      ensures found <==> FindTask(tasks, id, 0) < |tasks|
    {
      hide Sound, AllocFrame, MapFresh;
      var p := pager.AllocPage(Page);
      var record, i := FindRecord(id);
      assert record.Value() == tasks[i];
      found := record.id == id;
      if found {
        pager.MapFreshAt(record.pageDir, p, virt);
      }
    }
  }

  lemma ForkValue(s: Sys, ctx: Context, m1: Mach, d: FrameNo, s1: Sys)
    requires s.cur < |s.tasks| && Some((m1, d)) == ForkMemory(s.m, s.tasks[s.cur].dir)
    requires s1 == s.(m := m1)
    ensures ForkTask(s, ctx) == Some(AddChild(s1, d, ctx))
  {
  }

  /** mapTaskPage finds frames, and leaves the invariant in between. */
  ghost predicate MapTaskReady(s: Sys, id: nat, virt: Word) {
    && AllocFrame(s.m, Page).Some? && MapTaskPage(s.m, s.tasks, id, virt).Some?
    && var (m1, p) := AllocFrame(s.m, Page).value;
    && Sound(m1) && (forall d: FrameNo :: IsDir(s.m, d) ==> IsDir(m1, d))
    && (FindTask(s.tasks, id, 0) < |s.tasks| ==> IsDir(m1, s.tasks[FindTask(s.tasks, id, 0)].dir))
  }

  /** What mapTaskPage relies on, and what it leaves. */
  lemma BeforeMapTask(s: Sys, id: nat, virt: Word)
    requires Inv(s) && virt >= SLOT_SPAN && MapTaskPage(s.m, s.tasks, id, virt).Some?
    ensures Inv(s.(m := MapTaskPage(s.m, s.tasks, id, virt).value))
    ensures MapTaskReady(s, id, virt)
    ensures FindTask(s.tasks, id, 0) == if id < |s.tasks| then id else |s.tasks|
  {
    MapTaskPageKeeps(s, id, virt);
    SameTasks(s, MapTaskPage(s.m, s.tasks, id, virt).value);
    AllocIsFresh(s.m, Page);
    AllocKeepsSound(s.m, Page);
    if id < |s.tasks| { assert s.tasks[id].id == id; }
  }
}
