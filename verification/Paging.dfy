/** paging.c on physical memory: what each operation does to frames, page
    tables, the set of frames in use and the heap bounds. */
module Paging {
  import opened Options
  import opened Machine

  const WINDOW := 512             // pages identity mapped at boot
  const FREE_TOP := 160           // bitmap words 5..15 are set at boot
  const IDENTITY_LIMIT := 0x1F4000
  const STACK_SLOT := 896
  const STACK_BASE := 0xE000_0000

  /** What a frame that was handed out is for. A table remembers the slot and
      the directory it was created for; a mapped page the table entry holding it. */
  datatype Role =
    | Directory
    | Table(slot: SlotNo, owner: FrameNo)
    | Heap
    | Page
    | Mapped(table: FrameNo, index: SlotNo)

  /** A block returned by kmalloc, with the heap frame it was carved from. */
  datatype Block = Block(frame: int, addr: Word, len: Word)

  /** `used` are the frames whose bitmap bit is set. `role`, `blocks` and `log`, the
      frames allocPage handed out in order, record history: nothing the code
      computes depends on them. */
  datatype Mach = Mach(
    mem: Memory,
    used: set<nat>,
    next: Word,
    end: Word,
    heapPages: nat,
    kernelDir: FrameNo,
    role: map<FrameNo, Role>,
    blocks: seq<Block>,
    log: seq<FrameNo>)

  // ---------------------------------------------------------------- allocation

  /** A naive scan: the first frame at or after `i` that is not in use. */
  function FirstClear(used: set<nat>, i: nat): (r: nat)
    requires i <= WINDOW
    ensures i <= r <= WINDOW
    ensures forall j :: i <= j < r ==> j in used
    ensures r < WINDOW ==> r !in used
    decreases WINDOW - i
  {
    if i == WINDOW || i !in used then i else FirstClear(used, i + 1)
  }

  /** allocPage: the lowest clear frame, zeroed. None when no frame below 512 is clear. */
  function AllocFrame(m: Mach, role: Role): Option<(Mach, FrameNo)> {
    var f := FirstClear(m.used, 0);
    if f == WINDOW then None
    else Some((m.(mem := m.mem[f := ZeroFrame()], used := m.used + {f}, role := m.role[f := role],
                  log := m.log + [f]), f))
  }

  /** kmalloc: bump `next`, moving to a fresh heap page when the request does not fit. */
  function Kmalloc(m: Mach, bytes: Word): Option<(Mach, Word)> {
    var m1 :- HeapFor(m, bytes);
    Bumped(m1, bytes)
  }

  function Bumped(m: Mach, bytes: Word): Option<(Mach, Word)> {
    Some((m.(next := Wrap(m.next + bytes), blocks := m.blocks + [Block(m.end / PAGE - 1, m.next, bytes)]), m.next))
  }

  function HeapFor(m: Mach, bytes: Word): Option<Mach> {
    if Wrap(m.next + bytes) > m.end then HeapPage(m) else Some(m)
  }

  function HeapPage(m: Mach): Option<Mach> {
    var (m1, f) :- AllocFrame(m, Heap);
    Some(m1.(next := f * PAGE, end := Wrap(f * PAGE + PAGE), heapPages := m.heapPages + 1))
  }

  // ---------------------------------------------------------------------- boot

  /** generatePageTable on a bitmap with frames `used` taken: a directory, and
      one table that maps the first 512 pages to themselves. */
  function KernelTables(mem: Memory, used: set<nat>): Option<Mach> {
    var m0 := Mach(mem, used, 0, 0, 0, 0, map[], [], []);
    var (m1, d) :- AllocFrame(m0, Directory);
    var (m2, t) :- AllocFrame(m1.(kernelDir := d), Table(0, d));
    Some(m2.(mem := Store(m2.mem[t := IdentityTable()], d, 0, t * PAGE + 3)))
  }

  /** The tables, then initHeap. */
  function Boot(mem: Memory, used: set<nat>): Option<Mach> {
    var m :- KernelTables(mem, used);
    HeapPage(m)
  }

  function IdentityTable(): Frame {
    seq(SLOTS, j requires 0 <= j < SLOTS => if j < WINDOW then j * PAGE + 3 else 0)
  }

  // ------------------------------------------------------------------- mapping

  /** `phys | 1 | 2*writable | 4*user` for flags that are 0 or 1. */
  function Entry(phys: Word, user: bool, writable: bool): Word {
    var low := phys % 8;
    phys - low + 1 + (if writable || low % 4 >= 2 then 2 else 0) + (if user || low >= 4 then 4 else 0)
  }

  /** `e & 0xFFFFFF00`: for directory slots, which hold a frame address and
      flags below 256, the address of the table. */
  function Masked(e: Word): Word { e - e % 256 }

  function TableOf(mem: Memory, dir: FrameNo, slot: SlotNo): FrameNo {
    Masked(mem[dir][slot]) / PAGE
  }

  /** The table behind a slot of `dir`, allocated when the slot is empty. */
  function ObtainTable(m: Mach, dir: FrameNo, slot: SlotNo): Option<(Mach, FrameNo)> {
    if Masked(m.mem[dir][slot]) == 0 then AllocFrame(m, Table(slot, dir))
    else Some((m, TableOf(m.mem, dir, slot)))
  }

  /** The test that makes mapPage remove an identity mapping. */
  predicate IdentityMapped(mem: Memory, dir: FrameNo, phys: Word) {
    phys < IDENTITY_LIMIT && Masked(mem[TableOf(mem, dir, SlotOf(phys))][IndexOf(phys)]) == phys
  }

  function Unmap(mem: Memory, dir: FrameNo, phys: Word): Memory {
    if IdentityMapped(mem, dir, phys)
    then Store(mem, TableOf(mem, dir, SlotOf(phys)), IndexOf(phys), 0)
    else mem
  }

  function Install(mem: Memory, dir: FrameNo, table: FrameNo, virt: Word, entry: Word): Memory {
    Store(Store(mem, table, IndexOf(virt), entry), dir, SlotOf(virt), table * PAGE + 3)
  }

  function MapPage(m: Mach, dir: FrameNo, phys: Word, virt: Word, user: bool, writable: bool): Option<Mach> {
    var (m1, t) :- ObtainTable(m, dir, SlotOf(virt));
    Some(m1.(mem := Unmap(Install(m1.mem, dir, t, virt, Entry(phys, user, writable)), dir, phys)))
  }

  /** mapPage on a frame fresh from allocPage, recording where it went. */
  function MapFresh(m: Mach, dir: FrameNo, p: FrameNo, virt: Word): Option<Mach> {
    var m1 :- MapPage(m, dir, p * PAGE, virt, false, true);
    Some(m1.(role := m1.role[p := Mapped(TableOf(m1.mem, dir, SlotOf(virt)), IndexOf(virt))]))
  }

  // ------------------------------------------------------------------- cloning

  /** The slots clonePageDirectory copies: those equal to the kernel's, never the stack's. */
  function SharedSlots(src: Frame, kernel: Frame): Frame {
    seq(SLOTS, i requires 0 <= i < SLOTS =>
      if src[i] == 0 || i == STACK_SLOT then 0 else if kernel[i] == src[i] then src[i] else 0)
  }

  /** The frame behind the first page of the stack slot, read by physical address. */
  function StackFrame(mem: Memory, dir: FrameNo): FrameNo {
    mem[mem[dir][STACK_SLOT] / PAGE][0] / PAGE
  }

  /** The new directory once its slots are copied. */
  function NewDirectory(m: Mach, src: FrameNo): Option<(Mach, FrameNo)> {
    var (m1, d) :- AllocFrame(m, Page);
    Some((m1.(mem := m1.mem[d := SharedSlots(m1.mem[src], m1.mem[m.kernelDir])],
              role := m1.role[d := Directory]), d))
  }

  /** The new directory and a page holding a copy of the source's stack page. */
  function CopyStack(m: Mach, src: FrameNo): Option<(Mach, FrameNo, FrameNo)> {
    var (m1, d) :- NewDirectory(m, src);
    var (m2, p) :- AllocFrame(m1, Page);
    Some((m2.(mem := m2.mem[p := m2.mem[StackFrame(m2.mem, src)]]), d, p))
  }

  function CloneDirectory(m: Mach, src: FrameNo): Option<(Mach, FrameNo)> {
    var (m1, d, p) :- CopyStack(m, src);
    var m2 :- MapFresh(m1, d, p, STACK_BASE);
    Some((m2, d))
  }

  // ---------------------------------------------------------------- invariants

  predicate IsDir(m: Mach, d: FrameNo) { d in m.role && m.role[d] == Directory }
  predicate IsTable(m: Mach, t: FrameNo) { t in m.role && m.role[t].Table? }
  function LowTable(m: Mach): FrameNo { m.mem[m.kernelDir][0] / PAGE }

  /** Boot reserves frame 0 and frames 160..511; every frame with a role was clear before. */
  ghost predicate Owned(m: Mach) {
    && 0 in m.used
    && (forall f: nat :: FREE_TOP <= f < WINDOW ==> f in m.used)
    && (forall f: FrameNo :: f in m.role ==> 0 < f < FREE_TOP && f in m.used)
  }

  /** A slot is zero, or points to a table made for this slot, by this directory
      or, except in the stack slot, by the kernel directory. */
  predicate SlotOk(m: Mach, d: FrameNo, i: SlotNo) {
    var e := m.mem[d][i];
    e == 0 ||
    (e % PAGE == 3 && IsTable(m, e / PAGE) && var r := m.role[e / PAGE];
     r.slot == i && (r.owner == d || (r.owner == m.kernelDir && i != STACK_SLOT)))
  }

  /** A table sits in its owner's slot. */
  predicate TableOk(m: Mach, t: FrameNo)
    requires IsTable(m, t)
  {
    var r := m.role[t];
    IsDir(m, r.owner) && m.mem[r.owner][r.slot] == t * PAGE + 3
  }

  /** All directories share the kernel's first table. */
  ghost predicate LowShared(m: Mach) {
    && IsDir(m, m.kernelDir)
    && m.mem[m.kernelDir][0] != 0
    && (forall d: FrameNo :: IsDir(m, d) ==> m.mem[d][0] == m.mem[m.kernelDir][0])
  }

  ghost predicate Slots(m: Mach) {
    forall d: FrameNo, i: SlotNo :: IsDir(m, d) ==> SlotOk(m, d, i)
  }

  ghost predicate Tables(m: Mach) {
    forall t: FrameNo :: IsTable(m, t) ==> TableOk(m, t)
  }

  /** Kept by every operation, whatever is mapped where. */
  ghost predicate Structure(m: Mach) {
    Owned(m) && LowShared(m) && Slots(m) && Tables(m)
  }

  /** The shared first table: identity for the first 512 pages, except those given away. */
  function LowEntry(m: Mach, j: SlotNo): Word {
    if j >= WINDOW || (j in m.role && m.role[j].Mapped?) then 0 else j * PAGE + 3
  }

  ghost predicate Window(m: Mach) {
    forall j: SlotNo :: m.mem[LowTable(m)][j] == LowEntry(m, j)
  }

  predicate PageOk(m: Mach, t: FrameNo, j: SlotNo) {
    var e := m.mem[t][j];
    e == 0 || (e % PAGE == 3 && e / PAGE in m.role && m.role[e / PAGE] == Mapped(t, j))
  }

  /** Above the first table, an entry holds a page handed out for this very entry. */
  ghost predicate Pages(m: Mach) {
    forall t: FrameNo, j: SlotNo :: IsTable(m, t) && t != LowTable(m) ==> PageOk(m, t, j)
  }

  predicate Inside(b: Block) {
    b.frame * PAGE <= b.addr && b.addr + b.len <= b.frame * PAGE + PAGE
  }

  predicate Disjoint(a: Block, b: Block) {
    a.addr + a.len <= b.addr || b.addr + b.len <= a.addr
  }

  /** The heap bump pointer is in the latest heap frame. */
  predicate HeapBounds(m: Mach) {
    var h := m.end / PAGE - 1;
    0 < h < FREE_TOP && h in m.role && m.role[h] == Heap
    && m.end == h * PAGE + PAGE && h * PAGE <= m.next <= m.end
  }

  /** Blocks lie inside heap frames, below the bump pointer, and never overlap. */
  ghost predicate Blocks(m: Mach) {
    && (forall i :: 0 <= i < |m.blocks| ==>
      && Inside(m.blocks[i])
      && 0 < m.blocks[i].frame < FREE_TOP && m.blocks[i].frame in m.role && m.role[m.blocks[i].frame] == Heap
      && (m.blocks[i].frame == m.end / PAGE - 1 ==> m.blocks[i].addr + m.blocks[i].len <= m.next))
    && (forall i, j :: 0 <= i < j < |m.blocks| ==> Disjoint(m.blocks[i], m.blocks[j]))
  }

  /** Everything a run of the kernel keeps when it maps only fresh frames above the first table. */
  ghost predicate Sound(m: Mach) {
    Structure(m) && Window(m) && Pages(m) && HeapBounds(m) && Blocks(m)
  }
}
