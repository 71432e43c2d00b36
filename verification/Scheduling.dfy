/** Round-robin order and saved contexts over whole runs. */
module Scheduling {
  import opened Options
  import opened Machine
  import opened Paging
  import opened System
  import opened SystemInvariants

  // ------------------------------------------------------------------ fairness

  /** The tasks that get the processor, one for every switch, in order. */
  function Turns(s: Sys, ops: seq<Op>): seq<nat>
    requires s.cur < |s.tasks| && Run(s, ops).Some?
    decreases |ops|
  {
    if ops == [] then [] else
    StepCur(s, ops[0]);
    var s1 := Step(s, ops[0]).value;
    (if ops[0].Switch? then [s1.cur] else []) + Turns(s1, ops[1..])
  }

  function Forks(ops: seq<Op>): nat {
    if ops == [] then 0 else (if ops[0].Fork? then 1 else 0) + Forks(ops[1..])
  }

  function Range(a: nat, b: nat): seq<nat>
    requires a <= b
  {
    seq(b - a, i requires 0 <= i < b - a => a + i)
  }

  lemma {:induction false} RangeCount(a: nat, b: nat, j: nat)
    requires a <= b
    ensures multiset(Range(a, b))[j] == if a <= j < b then 1 else 0
    decreases b - a
  {
    if a < b {
      assert Range(a, b) == [a] + Range(a + 1, b);
      RangeCount(a + 1, b, j);
    } else {
      assert Range(a, b) == [];
    }
  }

  /** A step of the scheduler: forks append, switches move one place round. */
  lemma StepOrder(s: Sys, op: Op)
    requires s.cur < |s.tasks| && Step(s, op).Some?
    ensures var s1 := Step(s, op).value;
      && |s1.tasks| == |s.tasks| + (if op.Fork? then 1 else 0)
      && s1.cur == if op.Switch? then Next(s) else s.cur
  {
  }

  /** The turns from just after `cur` up to `t`, round a ring that was `wrap`
      long when its end was passed. */
  function Lap(cur: nat, wrap: nat, t: nat): seq<nat>
    requires cur < wrap && t < wrap
  {
    if cur < t then Range(cur + 1, t + 1) else Range(cur + 1, wrap) + Range(0, t + 1)
  }

  lemma LapStep(cur: nat, n: nat, t: nat, wrap: nat)
    requires cur < n <= wrap && t < n
    ensures var next := if cur + 1 == n then 0 else cur + 1;
      if next == t then [t] == Lap(cur, n, t)
      else [next] + Lap(next, wrap, t) == Lap(cur, if cur + 1 == n then n else wrap, t)
  {
    if cur + 1 < n {
      assert cur + 1 < t ==> Range(cur + 1, t + 1) == [cur + 1] + Range(cur + 2, t + 1);
      assert cur + 1 > t ==> Range(cur + 1, wrap) == [cur + 1] + Range(cur + 2, wrap);
    } else {
      assert Range(n, n) == [];
      assert Range(0, t + 1) == [0] + Range(1, t + 1);
    }
  }

  /** `t` gets its next turn: the turns until then, from any point of the ring. */
  lemma {:induction false} TurnsUntil(s: Sys, ops: seq<Op>, t: nat) returns (wrap: nat)
    requires s.cur < |s.tasks| && t < |s.tasks| && Run(s, ops).Some?
    requires var turns := Turns(s, ops); |turns| > 0 && turns[|turns| - 1] == t && t !in turns[..|turns| - 1]
    ensures |s.tasks| <= wrap <= |s.tasks| + Forks(ops)
    ensures Turns(s, ops) == Lap(s.cur, wrap, t)
    decreases |ops|
  {
    hide Step, Lap;
    StepOrder(s, ops[0]);
    var s1, turns := Step(s, ops[0]).value, Turns(s, ops);
    var rest := Turns(s1, ops[1..]);
    if !ops[0].Switch? {
      assert turns == rest;
      wrap := TurnsUntil(s1, ops[1..], t);
    } else if s1.cur == t {
      assert turns[0] == t;
      FirstIsLast(turns, t);
      wrap := |s.tasks|;
      LapStep(s.cur, |s.tasks|, t, wrap);
    } else {
      LastOfRest(turns, s1.cur, rest, t);
      wrap := TurnsUntil(s1, ops[1..], t);
      LapStep(s.cur, |s.tasks|, t, wrap);
      wrap := if s.cur + 1 == |s.tasks| then |s.tasks| else wrap;
    }
  }

  lemma FirstIsLast(turns: seq<nat>, t: nat)
    requires |turns| > 0 && turns[0] == t && t !in turns[..|turns| - 1]
    ensures turns == [t]
  {
    assert forall k :: 0 <= k < |turns| - 1 ==> turns[k] in turns[..|turns| - 1];
  }

  lemma LastOfRest(turns: seq<nat>, first: nat, rest: seq<nat>, t: nat)
    requires turns == [first] + rest && first != t && |turns| > 0
    requires turns[|turns| - 1] == t && t !in turns[..|turns| - 1]
    ensures |rest| > 0 && rest[|rest| - 1] == t && t !in rest[..|rest| - 1]
  {
    forall i | 0 <= i < |rest| - 1 ensures rest[i] != t {
      assert rest[i] == turns[..|turns| - 1][i + 1];
    }
  }

  /** Between two turns of the running task every other task gets exactly one,
      and the wait is the number of tasks plus at most the forks in between. */
  lemma RoundRobin(s: Sys, ops: seq<Op>)
    requires s.cur < |s.tasks| && Run(s, ops).Some?
    requires var turns := Turns(s, ops); |turns| > 0 && turns[|turns| - 1] == s.cur && s.cur !in turns[..|turns| - 1]
    ensures forall j: nat :: j < |s.tasks| ==> multiset(Turns(s, ops))[j] == 1
    ensures |s.tasks| <= |Turns(s, ops)| <= |s.tasks| + Forks(ops)
  {
    var wrap := TurnsUntil(s, ops, s.cur);
    forall j: nat | j < |s.tasks| ensures multiset(Turns(s, ops))[j] == 1 {
      RangeCount(s.cur + 1, wrap, j);
      RangeCount(0, s.cur + 1, j);
    }
  }

  // --------------------------------------------------------- saved contexts

  /** What one step saves for task `i`: its context when it is switched out, or
      the one recorded by the fork that makes it. */
  function SavedBy(s: Sys, op: Op, i: nat, saved: Option<Context>): Option<Context> {
    match op
    case Switch(ctx) => if |s.tasks| > 1 && s.cur == i then Some(ctx) else saved
    case Fork(ctx) => if |s.tasks| == i then Some(ctx) else saved
    case _ => saved
  }

  /** The context last saved for task `i` in a run. */
  function LastSaved(s: Sys, ops: seq<Op>, i: nat, saved: Option<Context>): Option<Context>
    requires s.cur < |s.tasks| && Run(s, ops).Some?
    decreases |ops|
  {
    if ops == [] then saved else
    StepCur(s, ops[0]);
    LastSaved(Step(s, ops[0]).value, ops[1..], i, SavedBy(s, ops[0], i, saved))
  }

  function SavedOf(s: Sys, i: nat): Option<Context> {
    if i < |s.tasks| then s.tasks[i].saved else None
  }

  lemma StepSaves(s: Sys, op: Op, i: nat)
    requires s.cur < |s.tasks| && Step(s, op).Some?
    ensures SavedOf(Step(s, op).value, i) == SavedBy(s, op, i, SavedOf(s, i))
  {
  }

  lemma {:induction false} RecordsHoldLastSaved(s: Sys, ops: seq<Op>, i: nat)
    requires s.cur < |s.tasks| && Run(s, ops).Some?
    ensures SavedOf(Run(s, ops).value, i) == LastSaved(s, ops, i, SavedOf(s, i))
    decreases |ops|
  {
    hide Step, SavedBy, SavedOf;
    if ops != [] {
      StepCur(s, ops[0]);
      StepSaves(s, ops[0], i);
      RecordsHoldLastSaved(Step(s, ops[0]).value, ops[1..], i);
    }
  }

  /** Every task but the running one has a saved context. */
  ghost predicate Ready(s: Sys) {
    forall i :: 0 <= i < |s.tasks| && i != s.cur ==> s.tasks[i].saved.Some?
  }

  lemma {:induction false} RunKeepsReady(s: Sys, ops: seq<Op>)
    requires s.cur < |s.tasks| && Ready(s) && Run(s, ops).Some?
    ensures Ready(Run(s, ops).value)
    decreases |ops|
  {
    if ops != [] {
      StepCur(s, ops[0]);
      RunKeepsReady(Step(s, ops[0]).value, ops[1..]);
    }
  }

  /** What a switch loads, after any run from initTasks: the context saved when
      that task last lost the processor or was forked, never an empty record. */
  lemma ContextConserved(s: Sys, ops: seq<Op>, ctx: Context)
    requires s.cur < |s.tasks| && Ready(s) && Run(s, ops).Some?
    requires |Run(s, ops).value.tasks| > 1
    ensures var s1 := Run(s, ops).value;
      var loaded := SwitchTasks(s1, ctx).tasks[Next(s1)].saved;
      loaded.Some? && loaded == LastSaved(s, ops, Next(s1), SavedOf(s, Next(s1)))
  {
    RunKeepsReady(s, ops);
    RecordsHoldLastSaved(s, ops, Next(Run(s, ops).value));
  }

  // ------------------------------------------------------------ fork's result

  /** What fork returns in the running task when it comes back from readEip. */
  function ForkResult(s: Sys): nat
    requires s.cur < |s.tasks|
  {
    if s.tasks[s.cur].id != s.pid - 1 then s.tasks[s.cur].id else 0
  }

  lemma StepIds(s: Sys, op: Op)
    requires s.cur < |s.tasks| && Step(s, op).Some?
    ensures Step(s, op).value.pid == s.pid + (if op.Fork? then 1 else 0)
    ensures |s.tasks| <= |Step(s, op).value.tasks|
    ensures forall i :: 0 <= i < |s.tasks| ==> Step(s, op).value.tasks[i].id == s.tasks[i].id
  {
  }

  lemma {:induction false} PidCounts(s: Sys, ops: seq<Op>)
    requires s.cur < |s.tasks| && Run(s, ops).Some?
    ensures Run(s, ops).value.pid == s.pid + Forks(ops)
    ensures |s.tasks| <= |Run(s, ops).value.tasks|
    ensures forall i :: 0 <= i < |s.tasks| ==> Run(s, ops).value.tasks[i].id == s.tasks[i].id
    decreases |ops|
  {
    hide Step;
    if ops != [] {
      StepCur(s, ops[0]);
      StepIds(s, ops[0]);
      PidCounts(Step(s, ops[0]).value, ops[1..]);
    }
  }

  lemma {:induction false} NoTurnsNoSaves(s: Sys, ops: seq<Op>, i: nat, saved: Option<Context>)
    requires s.cur < |s.tasks| && Run(s, ops).Some? && Turns(s, ops) == [] && i < |s.tasks|
    ensures LastSaved(s, ops, i, saved) == saved && Run(s, ops).value.cur == s.cur
    decreases |ops|
  {
    hide Step;
    if ops != [] {
      StepCur(s, ops[0]);
      StepOrder(s, ops[0]);
      NoTurnsNoSaves(Step(s, ops[0]).value, ops[1..], i, saved);
    }
  }

  /** Until its next turn, a waiting task's record is not written to. */
  lemma {:induction false} WaitingIsUntouched(s: Sys, ops: seq<Op>, i: nat, saved: Option<Context>)
    requires s.cur < |s.tasks| && Run(s, ops).Some? && i < |s.tasks| && s.cur != i
    requires var turns := Turns(s, ops); |turns| > 0 && turns[|turns| - 1] == i && i !in turns[..|turns| - 1]
    ensures LastSaved(s, ops, i, saved) == saved && Run(s, ops).value.cur == i
    decreases |ops|
  {
    hide Step;
    StepCur(s, ops[0]);
    StepOrder(s, ops[0]);
    var s1, turns := Step(s, ops[0]).value, Turns(s, ops);
    var rest := Turns(s1, ops[1..]);
    if !ops[0].Switch? {
      assert turns == rest;
      WaitingIsUntouched(s1, ops[1..], i, saved);
    } else if s1.cur == i {
      assert turns == [i] + rest;
      FirstIsLast(turns, i);
      NoTurnsNoSaves(s1, ops[1..], i, saved);
    } else {
      LastOfRest(turns, s1.cur, rest, i);
      WaitingIsUntouched(s1, ops[1..], i, saved);
    }
  }

  /** The parent gets the child's id. At the child's first turn its record still
      holds the context fork recorded, so it comes back from readEip; it then
      returns 0 exactly when nobody forked in between, otherwise its own id. */
  lemma ForkReturns(s: Sys, ctx: Context, ops: seq<Op>)
    requires Ring(s) && ForkTask(s, ctx).Some? && Run(ForkTask(s, ctx).value, ops).Some?
    requires var turns := Turns(ForkTask(s, ctx).value, ops); var child := |s.tasks|;
      |turns| > 0 && turns[|turns| - 1] == child && child !in turns[..|turns| - 1]
    ensures var s1 := Run(ForkTask(s, ctx).value, ops).value; var child := |s.tasks|;
      && child == s.pid && s.pid != 0 && ForkTask(s, ctx).value.tasks[child].id == child
      && s1.cur == child && s1.tasks[child].saved == Some(ctx)
      && ForkResult(s1) == if Forks(ops) == 0 then 0 else child
  {
    var s0, child := ForkTask(s, ctx).value, |s.tasks|;
    PidCounts(s0, ops);
    WaitingIsUntouched(s0, ops, child, Some(ctx));
    RecordsHoldLastSaved(s0, ops, child);
  }

  /** A lone task forks twice, then switches: the first child comes back with its
      own id instead of 0. */
  lemma SecondForkSpoilsResult(s: Sys, ctx: Context, ctx': Context, ctx'': Context)
    requires Ring(s) && |s.tasks| == 1 && ForkTask(s, ctx).Some? && ForkTask(ForkTask(s, ctx).value, ctx').Some?
    ensures var s2 := SwitchTasks(ForkTask(ForkTask(s, ctx).value, ctx').value, ctx'');
      s2.cur == 1 && s2.tasks[1].saved == Some(ctx) && ForkResult(s2) == 1
  {
    hide ForkMemory;
  }
}
