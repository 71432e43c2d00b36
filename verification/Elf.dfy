/** The page-mapping part of loadELF (elf.c): the search for the highest
    segment, and the loop that maps fresh pages from 0x400000 up to its end. */
module Elf {
  import opened Options
  import opened Machine
  import opened Paging
  import opened PagingInvariants
  import opened Mapping
  import opened Ownership
  import opened Isolation
  import opened System
  import opened SystemInvariants
  import opened Tasks
  import opened Frames

  const LOAD_BASE := 0x40_0000

  /** The fields of a program header the mapping uses. */
  datatype ProgramHeader = ProgramHeader(vaddr: Word, memsz: Word)

  // -------------------------------------------------------- highest segment

  ghost predicate IsHighest(ph: seq<ProgramHeader>, h: nat) {
    && h < |ph|
    && (forall j :: 0 <= j < |ph| ==> ph[j].vaddr <= ph[h].vaddr)
    && (forall j :: 0 <= j < h ==> ph[j].vaddr < ph[h].vaddr)
  }

  /** The search keeps the first header with the greatest address. */
  method FindHighest(ph: seq<ProgramHeader>) returns (highest: nat)
    requires |ph| > 0
    ensures IsHighest(ph, highest)
  {
    highest := 0;
    for i := 0 to |ph|
      invariant highest < |ph|
      invariant i > 0 ==> highest < i
      invariant i == 0 ==> highest == 0
      invariant forall j :: 0 <= j < i ==> ph[j].vaddr <= ph[highest].vaddr
      invariant forall j :: 0 <= j < highest ==> ph[j].vaddr < ph[highest].vaddr
    {
      if ph[i].vaddr > ph[highest].vaddr {
        highest := i;
      }
    }
  }

  /** `p_vaddr + p_memsz - 0x00400000` in 32 bits. */
  function Span(h: ProgramHeader): Word { Wrap(h.vaddr + h.memsz - LOAD_BASE) }

  function PageCount(h: ProgramHeader): nat {
    Span(h) / PAGE + (if Span(h) % PAGE != 0 then 1 else 0)
  }

  function PageAt(i: nat): Word { Wrap(LOAD_BASE + PAGE * i) }

  /** The maps of the loop, all for the running task. */
  function MapOps(id: nat, n: nat): seq<Op> {
    if n == 0 then [] else MapOps(id, n - 1) + [Map(id, PageAt(n - 1))]
  }

  // ------------------------------------------------------------ runs of maps

  lemma {:induction false} RunAppend(s: Sys, a: seq<Op>, b: seq<Op>)
    requires s.cur < |s.tasks|
    ensures Run(s, a + b) == if Run(s, a).Some? then Run(Run(s, a).value, b) else None
    decreases |a|
  {
    if a == [] {
      assert a + b == b;
    } else {
      assert (a + b)[0] == a[0] && (a + b)[1..] == a[1..] + b;
      if Step(s, a[0]).Some? {
        StepCur(s, a[0]);
        RunAppend(Step(s, a[0]).value, a[1..], b);
      }
    }
  }

  lemma RunOne(s: Sys, op: Op)
    requires s.cur < |s.tasks|
    ensures Run(s, [op]) == Step(s, op)
  {
    if Step(s, op).Some? { StepCur(s, op); }
    assert [op][1..] == [];
  }

  lemma MapOpsSnoc(s: Sys, id: nat, k: nat)
    requires s.cur < |s.tasks|
    ensures Run(s, MapOps(id, k + 1)) ==
      if Run(s, MapOps(id, k)).Some? then Step(Run(s, MapOps(id, k)).value, Map(id, PageAt(k))) else None
  {
    RunAppend(s, MapOps(id, k), [Map(id, PageAt(k))]);
    if Run(s, MapOps(id, k)).Some? { RunOne(Run(s, MapOps(id, k)).value, Map(id, PageAt(k))); }
  }

  lemma {:induction false} MapOpsPrefix(s: Sys, id: nat, k: nat, n: nat)
    requires s.cur < |s.tasks| && k <= n && Run(s, MapOps(id, n)).Some?
    ensures Run(s, MapOps(id, k)).Some?
    decreases n - k
  {
    hide Run, Step, MapOps;
    if k < n {
      MapOpsSnoc(s, id, n - 1);
      MapOpsPrefix(s, id, k, n - 1);
    }
  }

  // ------------------------------------------------------------- the method

  /** mapTaskPage(getpid(), allocPage(), 0x00400000 + 0x1000*i) */
  method MapNext(scheduler: Scheduler, i: nat)
    requires scheduler.Valid() && i * PAGE + LOAD_BASE < WORD_LIMIT
    requires Step(scheduler.State(), Map(scheduler.cur, PageAt(i))).Some?
    modifies scheduler.pager`mem, scheduler.pager`role, scheduler.pager`used, scheduler.pager`log
    modifies scheduler.pager.pageBitmap
    ensures scheduler.Valid()
    ensures Some(scheduler.State()) == Step(old(scheduler.State()), Map(scheduler.cur, PageAt(i)))
  {
    hide MapTaskPage, Inv, Sound;
    var id := scheduler.GetPid();
    var _ := scheduler.MapTaskPageAt(id, LOAD_BASE + PAGE * i);
  }

  method MapPages(scheduler: Scheduler, count: nat, ghost total: nat)
    requires scheduler.Valid() && count <= total && total * PAGE + LOAD_BASE <= WORD_LIMIT
    requires Run(scheduler.State(), MapOps(scheduler.cur, total)).Some?
    modifies scheduler.pager`mem, scheduler.pager`role, scheduler.pager`used, scheduler.pager`log
    modifies scheduler.pager.pageBitmap
    ensures scheduler.Valid()
    ensures Some(scheduler.State()) == Run(old(scheduler.State()), MapOps(scheduler.cur, count))
  {
    hide Step, Run, Inv, MapOps, PageAt;
    ghost var s := scheduler.State();
    NoMaps(s, scheduler.cur);
    for i := 0 to count
      invariant scheduler.Valid()
      invariant Some(scheduler.State()) == Run(s, MapOps(scheduler.cur, i))
    {
      MapOpsPrefix(s, scheduler.cur, i + 1, total);
      MapOpsSnoc(s, scheduler.cur, i);
      MapNext(scheduler, i);
    }
  }

  lemma NoMaps(s: Sys, id: nat)
    requires s.cur < |s.tasks|
    ensures Run(s, MapOps(id, 0)) == Some(s)
  {
  }

  /** The mapping loop: one fresh page for each page of the span. */
  method MapSegments(scheduler: Scheduler, ph: seq<ProgramHeader>) returns (highest: nat)
    requires |ph| > 0 && scheduler.Valid()
    requires forall h: nat :: IsHighest(ph, h) ==>
      Run(scheduler.State(), MapOps(scheduler.cur, PageCount(ph[h]))).Some?
      && PageCount(ph[h]) * PAGE + LOAD_BASE <= WORD_LIMIT
    modifies scheduler.pager`mem, scheduler.pager`role, scheduler.pager`used, scheduler.pager`log
    modifies scheduler.pager.pageBitmap
    ensures scheduler.Valid() && IsHighest(ph, highest)
    ensures Some(scheduler.State()) == Run(old(scheduler.State()), MapOps(scheduler.cur, PageCount(ph[highest])))
  {
    hide Step, Run, Inv, MapOps, PageAt;
    highest := FindHighest(ph);
    ghost var s := scheduler.State();
    var whole := Span(ph[highest]) / PAGE;
    MapPages(scheduler, whole, PageCount(ph[highest]));
    if Span(ph[highest]) % PAGE != 0 {
      MapOpsSnoc(s, scheduler.cur, whole);
      MapNext(scheduler, whole);
    }
  }

  // -------------------------------------------------------------- one map

  /** What one map of the loop does for the running task's addresses above the
      first table: its page becomes a fresh zeroed frame, all else stays. */
  lemma MapStep(s: Sys, virt: Word, va: Word) returns (p: FrameNo)
    requires Inv(s) && virt >= SLOT_SPAN && va >= SLOT_SPAN && Step(s, Map(s.cur, virt)).Some?
    ensures var s1 := Step(s, Map(s.cur, virt)).value; var dir := s.tasks[s.cur].dir;
      && Inv(s1) && s1.tasks == s.tasks && s1.cur == s.cur
      && p !in s.m.used && p in s1.m.used && s.m.used <= s1.m.used && (forall g: nat :: g < p ==> g in s.m.used)
      && s1.m.mem[p] == ZeroFrame()
      && Translate(s1.m.mem, dir, va) == (if va / PAGE == virt / PAGE then Some(p) else Translate(s.m.mem, dir, va))
      && (Translate(s.m.mem, dir, va).Some? ==>
        s1.m.mem[Translate(s.m.mem, dir, va).value] == s.m.mem[Translate(s.m.mem, dir, va).value])
  {
    hide MapFresh, Window, Pages, Slots, Tables, Blocks, LowShared;
    var dir := s.tasks[s.cur].dir;
    StepKeeps(s, Map(s.cur, virt));
    BeforeMapTask(s, s.cur, virt);
    var (m1, q) := AllocFrame(s.m, Page).value;
    p := q;
    AllocIsLowest(s.m, Page);
    AllocIsFresh(s.m, Page);
    AllocKeepsSound(s.m, Page);
    MapFreshGrows(m1, dir, p, virt);
    MapFreshHigh(m1, dir, p, virt, va);
    MapFreshContents(m1, dir, p, virt);
    AllocKeepsTranslation(s.m, dir, va);
  }

  lemma AllocKeepsTranslation(m: Mach, dir: FrameNo, va: Word)
    requires Sound(m) && IsDir(m, dir) && va >= SLOT_SPAN && AllocFrame(m, Page).Some?
    ensures Translate(AllocFrame(m, Page).value.0.mem, dir, va) == Translate(m.mem, dir, va)
    ensures Translate(m.mem, dir, va).Some? ==>
      var f := Translate(m.mem, dir, va).value; f in m.role && m.role[f].Mapped?
  {
    AllocIsFresh(m, Page);
    SlotTable(m, dir, SlotOf(va));
    if Translate(m.mem, dir, va).Some? { HighAddress(m, dir, va); }
  }

  lemma MapFreshHigh(m: Mach, dir: FrameNo, p: FrameNo, virt: Word, va: Word)
    requires Sound(m) && IsDir(m, dir) && p in m.role && m.role[p] == Page && virt >= SLOT_SPAN && va >= SLOT_SPAN
    requires ObtainTable(m, dir, SlotOf(virt)).Some?
    ensures Translate(MapFresh(m, dir, p, virt).value.mem, dir, va) ==
      if va / PAGE == virt / PAGE then Some(p) else Translate(m.mem, dir, va)
  {
    MapPageTranslates(m, dir, p * PAGE, virt, false, true, dir, va);
    SlotStays(m, dir, p * PAGE, virt, false, true);
    if va / PAGE == virt / PAGE { SamePage(va, virt); }
    assert p < FREE_TOP && p * PAGE / PAGE == p;
  }

  // ------------------------------------------------------ mapping a page again

  /** Mapping in a slot that has a table leaves the slot as it is. */
  lemma SlotKept(m: Mach, dir: FrameNo, p: FrameNo, virt: Word)
    requires Sound(m) && IsDir(m, dir) && p in m.role && m.role[p] == Page && virt >= SLOT_SPAN
    requires m.mem[dir][SlotOf(virt)] != 0
    ensures MapFresh(m, dir, p, virt).Some? && MapFresh(m, dir, p, virt).value.mem[dir] == m.mem[dir]
  {
    SlotTable(m, dir, SlotOf(virt));
    MapFreshWrites(m, dir, p, virt);
    ObtainedTable(m, dir, SlotOf(virt));
    HighTable(m, dir, virt);
  }

  lemma MapAgain(s: Sys, virt: Word)
    requires Inv(s) && virt >= SLOT_SPAN && Step(s, Map(s.cur, virt)).Some?
    requires Translate(s.m.mem, s.tasks[s.cur].dir, virt).Some?
    ensures Step(s, Map(s.cur, virt)).value.m.mem[s.tasks[s.cur].dir] == s.m.mem[s.tasks[s.cur].dir]
  {
    hide Window, Pages, Blocks, Slots, Tables, LowShared, MapFresh;
    BeforeMapTask(s, s.cur, virt);
    AllocIsFresh(s.m, Page);
    var (m1, p) := AllocFrame(s.m, Page).value;
    SlotKept(m1, s.tasks[s.cur].dir, p, virt);
  }

  /** exec maps 0x400000 again: the frame that was there is then behind no address
      of any task, its own included, though it is mapped nowhere any more. */
  lemma RemappedFrameIsLost(s: Sys, virt: Word, i: nat, va: Word) returns (p: FrameNo)
    requires Inv(s) && virt >= SLOT_SPAN && i < |s.tasks| && Step(s, Map(s.cur, virt)).Some?
    requires Step(Step(s, Map(s.cur, virt)).value, Map(s.cur, virt)).Some?
    ensures var s1 := Step(s, Map(s.cur, virt)).value; var s2 := Step(s1, Map(s.cur, virt)).value;
      && Translate(s1.m.mem, s.tasks[s.cur].dir, virt) == Some(p)
      && Translate(s2.m.mem, s.tasks[i].dir, va) != Some(p)
      && (va / PAGE == p ==> Translate(s2.m.mem, s.tasks[i].dir, va) == None)
  {
    hide Step, Structure, Window, Pages, HeapBounds, Blocks, Translate;
    var s1, dir := Step(s, Map(s.cur, virt)).value, s.tasks[s.cur].dir;
    p := MapStep(s, virt, virt);
    var q := MapStep(s1, virt, virt);
    var s2 := Step(s1, Map(s.cur, virt)).value;
    StepKeeps(s1, Map(s.cur, virt));
    MapAgain(s1, virt);
    HighAddress(s1.m, dir, virt);
    HighAddress(s2.m, dir, virt);
    OnlyAtItsEntry(s2.m, dir, virt, p, q, s.tasks[i].dir, va);
  }

  /** A mapped frame whose entry holds another frame is behind no address. */
  lemma OnlyAtItsEntry(m: Mach, dir: FrameNo, virt: Word, p: FrameNo, q: FrameNo, d: FrameNo, va: Word)
    requires Sound(m) && IsDir(m, dir) && IsDir(m, d) && virt >= SLOT_SPAN && p != q
    requires Translate(m.mem, dir, virt) == Some(q)
    requires p in m.role && m.role[p] == Mapped(m.mem[dir][SlotOf(virt)] / PAGE, IndexOf(virt))
    ensures Translate(m.mem, d, va) != Some(p)
    ensures va / PAGE == p ==> Translate(m.mem, d, va) == None
  {
    if va / PAGE == p { OwnAddressReached(m, d, p, va); }
    if va < SLOT_SPAN {
      if Translate(m.mem, d, va).Some? { LowAddress(m, d, va); }
    } else if Translate(m.mem, d, va).Some? {
      HighAddress(m, d, va);
    }
  }

  // ----------------------------------------------------------- all the maps

  /** Pages 0..n-1 from 0x400000 are mapped, to zeroed frames that were all free
      before and are all different. */
  ghost predicate FreshPages(s: Sys, s1: Sys, frames: seq<FrameNo>) {
    && s1.tasks == s.tasks && s1.cur == s.cur < |s.tasks| && s.m.used <= s1.m.used
    && (forall i :: 0 <= i < |frames| ==>
      && Translate(s1.m.mem, s.tasks[s.cur].dir, PageAt(i)) == Some(frames[i])
      && s1.m.mem[frames[i]] == ZeroFrame() && frames[i] !in s.m.used && frames[i] in s1.m.used)
    && (forall i, j :: 0 <= i < j < |frames| ==> frames[i] != frames[j])
  }

  lemma PageAtDistinct(i: nat, j: nat)
    requires i < j && j * PAGE + LOAD_BASE < WORD_LIMIT
    ensures PageAt(i) / PAGE != PageAt(j) / PAGE && PageAt(i) >= SLOT_SPAN
  {
  }

  /** One more page. */
  lemma NextPage(s: Sys, s1: Sys, frames: seq<FrameNo>) returns (frames': seq<FrameNo>)
    requires Inv(s1) && FreshPages(s, s1, frames) && |frames| * PAGE + LOAD_BASE < WORD_LIMIT
    requires Step(s1, Map(s.cur, PageAt(|frames|))).Some?
    ensures |frames'| == |frames| + 1 && FreshPages(s, Step(s1, Map(s.cur, PageAt(|frames|))).value, frames')
    ensures Inv(Step(s1, Map(s.cur, PageAt(|frames|))).value)
  {
    hide Step, Inv, PageAt;
    var n := |frames|;
    assert PageAt(n) >= SLOT_SPAN by { PageAtHigh(n); }
    var p := MapStep(s1, PageAt(n), PageAt(n));
    frames' := frames + [p];
    forall i | 0 <= i < n
      ensures Translate(Step(s1, Map(s.cur, PageAt(n))).value.m.mem, s.tasks[s.cur].dir, PageAt(i)) == Some(frames[i])
        && Step(s1, Map(s.cur, PageAt(n))).value.m.mem[frames[i]] == ZeroFrame()
    {
      PageAtDistinct(i, n);
      var q := MapStep(s1, PageAt(n), PageAt(i));
    }
  }

  lemma PageAtHigh(i: nat)
    requires i * PAGE + LOAD_BASE < WORD_LIMIT
    ensures PageAt(i) >= SLOT_SPAN
  {
  }

  /** The loop maps consecutive pages injectively onto fresh frames. */
  lemma {:induction false} LoadedPages(s: Sys, n: nat) returns (frames: seq<FrameNo>)
    requires Inv(s) && Run(s, MapOps(s.cur, n)).Some? && n * PAGE + LOAD_BASE <= WORD_LIMIT
    ensures |frames| == n && FreshPages(s, Run(s, MapOps(s.cur, n)).value, frames)
    ensures Inv(Run(s, MapOps(s.cur, n)).value)
    decreases n
  {
    hide Sound, OwnDirectories, Step, PageAt;
    if n == 0 {
      frames := [];
      NoMaps(s, s.cur);
    } else {
      MapOpsPrefix(s, s.cur, n - 1, n);
      MapOpsSnoc(s, s.cur, n - 1);
      var before := LoadedPages(s, n - 1);
      frames := NextPage(s, Run(s, MapOps(s.cur, n - 1)).value, before);
    }
  }

  // ------------------------------------------------------------- coverage

  /** Segments from 0x400000 up, ending below 2^32 and overlapping nowhere. */
  ghost predicate Loadable(ph: seq<ProgramHeader>) {
    && (forall j :: 0 <= j < |ph| ==> ph[j].vaddr >= LOAD_BASE && ph[j].vaddr + ph[j].memsz < WORD_LIMIT)
    && (forall i, j :: 0 <= i < j < |ph| ==>
      ph[i].vaddr + ph[i].memsz <= ph[j].vaddr || ph[j].vaddr + ph[j].memsz <= ph[i].vaddr)
  }

  predicate InSegment(h: ProgramHeader, b: int) {
    h.vaddr <= b < h.vaddr + h.memsz
  }

  /** Every byte of every segment lies in the first `n` pages from 0x400000. */
  ghost predicate Covered(ph: seq<ProgramHeader>, n: nat) {
    forall j, b :: 0 <= j < |ph| && InSegment(ph[j], b) ==> LOAD_BASE <= b < LOAD_BASE + n * PAGE
  }

  /** The number of pages is the span rounded up. */
  lemma PageCountIsCeiling(h: ProgramHeader)
    requires h.vaddr >= LOAD_BASE && h.vaddr + h.memsz < WORD_LIMIT
    ensures var end := h.vaddr + h.memsz;
      LOAD_BASE + PageCount(h) * PAGE - PAGE < end <= LOAD_BASE + PageCount(h) * PAGE
  {
    assert Span(h) == h.vaddr + h.memsz - LOAD_BASE;
  }

  /** What is left of the page a segment starts in, when it starts inside one. */
  function RestOfPage(h: ProgramHeader): nat { (PAGE - h.vaddr % PAGE) % PAGE }

  lemma EmptyHeaderPages(h: ProgramHeader)
    requires h.vaddr >= LOAD_BASE && h.memsz == 0
    ensures LOAD_BASE + PageCount(h) * PAGE == h.vaddr + RestOfPage(h)
  {
    assert Span(h) == h.vaddr - LOAD_BASE && Span(h) % PAGE == h.vaddr % PAGE;
  }

  /** The pages cover every segment byte exactly when the chosen header is not
      empty, or no other segment at its address is longer than the rest of its page. */
  lemma CoverageExactly(ph: seq<ProgramHeader>, h: nat)
    requires Loadable(ph) && IsHighest(ph, h)
    ensures Covered(ph, PageCount(ph[h])) <==>
      ph[h].memsz > 0 || forall j :: 0 <= j < |ph| && ph[j].vaddr == ph[h].vaddr ==> ph[j].memsz <= RestOfPage(ph[h])
  {
    if ph[h].memsz == 0 { EmptyHeaderPages(ph[h]); }
    hide PageCount, RestOfPage;
    var limit := LOAD_BASE + PageCount(ph[h]) * PAGE;
    PageCountIsCeiling(ph[h]);
    forall j | 0 <= j < |ph| && ph[j].memsz > 0 && (ph[h].memsz > 0 || ph[j].vaddr != ph[h].vaddr)
      ensures ph[j].vaddr + ph[j].memsz <= limit
    {
    }
    if ph[h].memsz == 0 && Covered(ph, PageCount(ph[h])) {
      forall j | 0 <= j < |ph| && ph[j].vaddr == ph[h].vaddr ensures ph[j].vaddr + ph[j].memsz <= limit {
        if ph[j].memsz > 0 { assert InSegment(ph[j], ph[j].vaddr + ph[j].memsz - 1); }
      }
    }
  }

  /** An empty segment listed before another one at the same address hides it. */
  lemma EmptyHeaderHidesSegment()
    ensures var ph := [ProgramHeader(LOAD_BASE, 0), ProgramHeader(LOAD_BASE, 1)];
      Loadable(ph) && IsHighest(ph, 0) && !Covered(ph, PageCount(ph[0]))
  {
    var ph := [ProgramHeader(LOAD_BASE, 0), ProgramHeader(LOAD_BASE, 1)];
    assert InSegment(ph[1], LOAD_BASE);
  }

  /** A covered byte is backed by a frame of the loop. */
  lemma CoveredByteMapped(s: Sys, ph: seq<ProgramHeader>, h: nat, j: nat, b: Word) returns (frames: seq<FrameNo>)
    requires Inv(s) && Loadable(ph) && IsHighest(ph, h) && Covered(ph, PageCount(ph[h]))
    requires Run(s, MapOps(s.cur, PageCount(ph[h]))).Some? && PageCount(ph[h]) * PAGE + LOAD_BASE <= WORD_LIMIT
    requires j < |ph| && InSegment(ph[j], b)
    ensures |frames| == PageCount(ph[h]) && FreshPages(s, Run(s, MapOps(s.cur, PageCount(ph[h]))).value, frames)
    ensures LOAD_BASE <= b && (b - LOAD_BASE) / PAGE < |frames|
    ensures Translate(Run(s, MapOps(s.cur, PageCount(ph[h]))).value.m.mem, s.tasks[s.cur].dir, b)
      == Some(frames[(b - LOAD_BASE) / PAGE])
  {
    hide Step, Sound, OwnDirectories, PageCount, Run;
    var n := PageCount(ph[h]);
    frames := LoadedPages(s, n);
    var i := (b - LOAD_BASE) / PAGE;
    assert b < LOAD_BASE + n * PAGE && i < n;
    PageOfByte(b);
    SamePage(b, PageAt(i));
  }

  lemma PageOfByte(b: Word)
    requires b >= LOAD_BASE
    ensures PageAt((b - LOAD_BASE) / PAGE) / PAGE == b / PAGE
  {
    var i := (b - LOAD_BASE) / PAGE;
    assert LOAD_BASE + PAGE * i <= b < LOAD_BASE + PAGE * i + PAGE;
  }
}
