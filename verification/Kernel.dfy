/** paging.c as it runs: pointers go through the address translation of the active
    directory, but for the source of the stack copy (Pager.CopyFrame), and memory,
    bitmap and heap bounds change in place. */
module Kernel {
  import opened Options
  import opened Machine
  import opened Bitmap
  import opened Paging
  import opened PagingInvariants
  import opened Mapping
  import opened Ownership
  import opened Isolation

  const BITS := 32 * 1024         // frames the bitmap covers

  class Pager {
    var mem: Memory
    var paging: bool
    var cr3: FrameNo
    const pageBitmap: array<bv32>
    var nextAddress: Word
    var endOfPage: Word
    var numHeapPages: nat
    var pageDirectory: FrameNo
    ghost var used: set<nat>
    ghost var role: map<FrameNo, Role>
    ghost var blocks: seq<Block>
    ghost var log: seq<FrameNo>

    /** Zeroed globals over a given memory and bitmap. */
    constructor (memory: Memory, words: array<bv32>)
      ensures mem == memory && pageBitmap == words && !paging && cr3 == 0 && pageDirectory == 0
      ensures nextAddress == 0 && endOfPage == 0 && numHeapPages == 0 && role == map[] && blocks == [] && log == []
    {
      mem, pageBitmap, paging, cr3, pageDirectory := memory, words, false, 0, 0;
      nextAddress, endOfPage, numHeapPages := 0, 0, 0;
      used, role, blocks, log := {}, map[], [], [];
    }

    ghost function Abs(): Mach
      reads this
    {
      Mach(mem, used, nextAddress, endOfPage, numHeapPages, pageDirectory, role, blocks, log)
    }

    /** The bitmap has a word for every 32 frames, and its set bits are the frames in use. */
    ghost predicate BitmapOk()
      reads this, pageBitmap
    {
      pageBitmap.Length == 1024 && used == Used(pageBitmap[..])
    }

    /** Paging is on, some directory is active, and the invariant holds. */
    ghost predicate Valid()
      reads this, pageBitmap
    {
      BitmapOk() && paging && Sound(Abs()) && IsDir(Abs(), cr3)
    }

    /** Before paging is turned on, allocation works on physical addresses. */
    ghost predicate Booting()
      reads this, pageBitmap
    {
      BitmapOk() && !paging && Owned(Abs())
    }

    // ------------------------------------------------------- memory accesses

    /** The page at frame `x`'s own address is frame `x`. */
    ghost predicate Reached(x: FrameNo)
      reads this
    {
      paging ==> Walks(mem, cr3, x)
    }

    /** The frame the processor reaches at an address. */
    function Walk(va: Word): Option<FrameNo>
      reads this
    {
      if paging then Translate(mem, cr3, va) else Some(va / PAGE)
    }

    /** A read of word `i` of the page at frame `x`'s own address. */
    method Load(x: FrameNo, i: SlotNo) returns (w: Word)
      requires Reached(x)
      ensures w == mem[x][i]
    {
      if paging { ReachedAt(mem, cr3, x, i); } else { WordAddress(x, i); }
      var va := x * PAGE + 4 * i;
      w := mem[Walk(va).value][va % PAGE / 4];
    }

    /** A store to word `i` of the page at frame `x`'s own address. */
    method StoreAt(x: FrameNo, i: SlotNo, w: Word)
      requires Reached(x)
      modifies this`mem
      ensures mem == Store(old(mem), x, i, w)
    {
      if paging { ReachedAt(mem, cr3, x, i); } else { WordAddress(x, i); }
      var va := x * PAGE + 4 * i;
      mem := Store(mem, Walk(va).value, va % PAGE / 4, w);
    }

    /** kmemset of a whole page to zero, word by word. */
    method ZeroPage(f: FrameNo)
      requires Reached(f) && (paging ==> f != cr3 && f != mem[cr3][0] / PAGE)
      modifies this`mem
      ensures mem == old(mem)[f := ZeroFrame()]
    {
      for k := 0 to SLOTS
        invariant mem == old(mem)[f := mem[f]]
        invariant forall j :: 0 <= j < k ==> mem[f][j] == 0
      {
        StoreAt(f, k, 0);
      }
      assert mem[f] == ZeroFrame();
    }

    // ------------------------------------------------------------ allocation

    /** The scan loop of allocPage: skipping full words, it stops at the lowest clear
        bit of the whole bitmap, for a frame of the window where the naive scan stops. */
    method FindClear() returns (bit: FrameNo)
      requires BitmapOk() && (exists f: nat :: f < BITS && f !in used)
      ensures bit < BITS && bit !in used && (forall j: nat :: j < bit ==> j in used)
      ensures bit < WINDOW ==> bit == FirstClear(used, 0)
    {
      ghost var free: nat :| free < BITS && free !in used;
      hide Used, BitTest, BitOf;
      bit := 0;
      while true
        invariant bit <= free && (forall j: nat :: j < bit ==> j in used)
        decreases free - bit
      {
        if bit % 32 == 0 || bit == 0 {
          if pageBitmap[bit / 32] == 0xFFFF_FFFF {
            FullWordUsed(pageBitmap[..], bit / 32);
            bit := bit + 32;
            continue;
          }
        }
        if BitTest(pageBitmap[bit / 32], BitOf(bit)) == 0 {
          BitInUsed(pageBitmap[..], bit);
          return;
        } else {
          BitInUsed(pageBitmap[..], bit);
          bit := bit + 1;
        }
      }
    }

    /** Set the bit of one frame. */
    method SetUsed(page: FrameNo)
      requires BitmapOk() && page < WINDOW
      modifies this`used, pageBitmap
      ensures BitmapOk() && used == old(used) + {page}
    {
      ghost var words := pageBitmap[..];
      SetAdds(words, page);
      pageBitmap[page / 32] := BitSet(pageBitmap[page / 32], BitOf(page));
      assert pageBitmap[..] == words[page / 32 := BitSet(words[page / 32], BitOf(page))];
      used := used + {page};
    }

    /** allocPage: sets the lowest clear bit and no other; the zero-fill goes
        through the page's own address and reaches that frame. */
    method AllocPage(ghost r: Role) returns (page: FrameNo)
      requires Valid() || Booting()
      requires AllocFrame(Abs(), r).Some?
      modifies this`mem, this`role, this`used, this`log, pageBitmap
      ensures BitmapOk() && Some((Abs(), page)) == AllocFrame(old(Abs()), r)
      ensures page !in old(used) && (forall g: nat :: g < page ==> g in old(used)) && used == old(used) + {page}
    {
      hide Window, Pages, Blocks, Slots, Tables, Used;
      page := FindClear();
      AllocIsFresh(Abs(), r);
      if paging { KernelWalks(Abs(), cr3, page); }
      SetUsed(page);
      ZeroPage(page);
      role, log := role[page := r], log + [page];
    }

    /** Bump through the heap page at `page` from here on. */
    method UseHeapPage(page: FrameNo)
      modifies this`nextAddress, this`endOfPage, this`numHeapPages
      ensures Abs() == old(Abs()).(next := page * PAGE, end := Wrap(page * PAGE + PAGE),
                                   heapPages := old(Abs()).heapPages + 1)
    {
      nextAddress := page * PAGE;
      endOfPage := Wrap(nextAddress + PAGE);
      numHeapPages := numHeapPages + 1;
    }

    method Bump(bytes: Word) returns (p: Word)
      modifies this`nextAddress, this`blocks
      ensures Some((Abs(), p)) == Bumped(old(Abs()), bytes)
    {
      p := nextAddress;
      blocks := blocks + [Block(endOfPage / PAGE - 1, p, bytes)];
      nextAddress := Wrap(p + bytes);
    }

    /** initHeap, and the branch kmalloc shares with it. */
    method NewHeapPage()
      requires Valid() || Booting()
      requires HeapPage(Abs()).Some?
      modifies this`mem, this`role, this`used, this`log, this`nextAddress, this`endOfPage, this`numHeapPages, pageBitmap
      ensures BitmapOk() && Some(Abs()) == HeapPage(old(Abs()))
    {
      hide Window, Pages, Blocks, Slots, Tables, Used, AllocFrame;
      var page := AllocPage(Heap);
      ghost var m1 := Abs();
      UseHeapPage(page);
      HeapPageValue(old(Abs()), m1, page);
    }

    /** kmalloc */
    method Malloc(bytes: Word) returns (p: Word)
      requires Valid() && Kmalloc(Abs(), bytes).Some?
      modifies this`mem, this`role, this`used, this`log, this`nextAddress, this`endOfPage, this`numHeapPages
      modifies this`blocks, pageBitmap
      ensures BitmapOk() && Some((Abs(), p)) == Kmalloc(old(Abs()), bytes)
    {
      hide Window, Pages, Blocks, Slots, Tables, Used, HeapPage;
      if Wrap(nextAddress + bytes) > endOfPage {
        NewHeapPage();
      }
      ghost var m1 := Abs();
      p := Bump(bytes);
      KmallocValue(old(Abs()), m1, bytes);
    }

    // --------------------------------------------------------------- mapping

    /** The stores of mapPage once the table is there. */
    method InstallEntry(dir: FrameNo, table: FrameNo, phys: Word, virt: Word, entry: Word)
      requires paging && Reached(dir) && Reached(table) && Reached(mem[cr3][0] / PAGE)
      requires mem[dir][0] == mem[cr3][0] && SlotOf(virt) != 0
      requires dir != mem[cr3][0] / PAGE && table != mem[cr3][0] / PAGE && table != cr3 && table != dir
      modifies this`mem
      ensures mem == Unmap(Install(old(mem), dir, table, virt, entry), dir, phys)
    {
      StoreAt(table, IndexOf(virt), entry);
      StoreAt(dir, SlotOf(virt), table * PAGE + 3);
      var slot := Load(dir, SlotOf(phys));
      var low: FrameNo := Masked(slot) / PAGE;
      if phys < IDENTITY_LIMIT {
        assert SlotOf(phys) == 0;
        var e := Load(low, IndexOf(phys));
        if Masked(e) == phys {
          StoreAt(low, IndexOf(phys), 0);
        }
      }
    }

    /** mapPage, for any frame and any address above the shared first table:
        every access goes through the active directory and reaches what it names. */
    method MapPageAt(dir: FrameNo, phys: Word, virt: Word, user: bool, writable: bool)
      requires Valid() && IsDir(Abs(), dir) && virt >= SLOT_SPAN
      requires MapPage(Abs(), dir, phys, virt, user, writable).Some?
      modifies this`mem, this`role, this`used, this`log, pageBitmap
      ensures BitmapOk() && Some(Abs()) == MapPage(old(Abs()), dir, phys, virt, user, writable)
    {
      hide Window, Pages, Blocks, Slots, Tables, Used, AllocFrame, Unmap, Install, Entry;
      BeforeMapping(Abs(), cr3, dir, virt);
      var entry := Load(dir, SlotOf(virt));
      var table: FrameNo := Masked(entry) / PAGE;
      if Masked(entry) == 0 {
        table := AllocPage(Table(SlotOf(virt), dir));
      }
      InstallEntry(dir, table, phys, virt, Entry(phys, user, writable));
    }

    /** mapPage on a frame just taken from allocPage. */
    method MapFreshAt(dir: FrameNo, p: FrameNo, virt: Word)
      requires Valid() && IsDir(Abs(), dir) && virt >= SLOT_SPAN && MapFresh(Abs(), dir, p, virt).Some?
      modifies this`mem, this`role, this`used, this`log, pageBitmap
      ensures BitmapOk() && Some(Abs()) == MapFresh(old(Abs()), dir, p, virt)
    {
      MapPageAt(dir, p * PAGE, virt, false, true);
      role := role[p := Mapped(TableOf(mem, dir, SlotOf(virt)), IndexOf(virt))];
    }

    // --------------------------------------------------------------- cloning

    /** The copy loop of clonePageDirectory. */
    method CopySlots(src: FrameNo, d: FrameNo)
      requires Reached(src) && Reached(pageDirectory) && Reached(d)
      requires d != src && d != pageDirectory && mem[d] == ZeroFrame()
      requires paging ==> d != cr3 && d != mem[cr3][0] / PAGE
      modifies this`mem
      ensures mem == old(mem)[d := SharedSlots(old(mem)[src], old(mem)[pageDirectory])]
    {
      ghost var copy := SharedSlots(mem[src], mem[pageDirectory]);
      for i := 0 to SLOTS
        invariant mem == old(mem)[d := mem[d]]
        invariant forall j :: 0 <= j < SLOTS ==> mem[d][j] == if j < i then copy[j] else 0
      {
        var e := Load(src, i);
        if e == 0 || i == STACK_SLOT {
          continue;
        }
        var k := Load(pageDirectory, i);
        if k == e {
          StoreAt(d, i, e);
        }
      }
      assert mem[d] == copy;
    }

    /** The new directory, with the kernel's tables linked in. */
    method NewDirectoryAt(src: FrameNo) returns (d: FrameNo)
      requires Valid() && IsDir(Abs(), src) && NewDirectory(Abs(), src).Some?
      modifies this`mem, this`role, this`used, this`log, pageBitmap
      ensures BitmapOk() && Some((Abs(), d)) == NewDirectory(old(Abs()), src)
    {
      hide Window, Pages, Blocks, Slots, Tables, Used, AllocFrame;
      ghost var m := Abs();
      AllocIsFresh(m, Page);
      d := AllocPage(Page);
      ghost var m1 := Abs();
      ThreeWalks(m, cr3, src, d);
      NewDirectoryValue(m, m1, src, d);
      ZeroPage(d);
      assert mem == m1.mem;
      CopySlots(src, d);
      role := role[d := Directory];
    }

    /** kmemcpy of the stack page, as intended: the source is frame `from`, which the
        code's read at that frame's own address reaches only when it was never mapped
        (Isolation.OwnAddressReached). */
    method CopyFrame(p: FrameNo, from: FrameNo)
      requires Reached(p) && (paging ==> p != cr3 && p != mem[cr3][0] / PAGE)
      modifies this`mem
      ensures mem == old(mem)[p := old(mem)[from]]
    {
      for k := 0 to SLOTS
        invariant mem == old(mem)[p := mem[p]]
        invariant forall j :: 0 <= j < SLOTS ==> mem[p][j] == if j < k then old(mem)[from][j] else old(mem)[p][j]
      {
        StoreAt(p, k, mem[from][k]);
      }
      assert mem[p] == old(mem)[from];
    }

    /** Copy the source's stack page into `p`, finding it through its table. */
    method CopyStackPage(src: FrameNo, p: FrameNo)
      requires Reached(src) && Reached(mem[src][STACK_SLOT] / PAGE)
      requires Reached(p) && (paging ==> p != cr3 && p != mem[cr3][0] / PAGE)
      modifies this`mem
      ensures mem == old(mem)[p := old(mem)[StackFrame(old(mem), src)]]
    {
      var table := Load(src, STACK_SLOT);
      var entry := Load(table / PAGE, 0);
      CopyFrame(p, entry / PAGE);
    }

    method CopyStackAt(src: FrameNo) returns (d: FrameNo, p: FrameNo)
      requires Valid() && IsDir(Abs(), src) && CopyStack(Abs(), src).Some?
      modifies this`mem, this`role, this`used, this`log, pageBitmap
      ensures BitmapOk() && Some((Abs(), d, p)) == CopyStack(old(Abs()), src)
    {
      hide Window, Pages, Blocks, Slots, Tables, Used, AllocFrame;
      BeforeStackCopy(Abs(), cr3, src);
      d := NewDirectoryAt(src);
      ghost var m1 := Abs();
      p := AllocPage(Page);
      CopyStackValue(old(Abs()), src, d, m1, p, Abs());
      CopyStackPage(src, p);
    }

    /** clonePageDirectory */
    method ClonePageDirectory(src: FrameNo) returns (d: FrameNo)
      requires Valid() && IsDir(Abs(), src) && CloneDirectory(Abs(), src).Some?
      modifies this`mem, this`role, this`used, this`log, pageBitmap
      ensures BitmapOk() && Some((Abs(), d)) == CloneDirectory(old(Abs()), src)
    {
      hide Window, Pages, Blocks, Slots, Tables, Used, CopyStack, MapFresh;
      CopyStackKeepsSound(Abs(), src);
      CopyStackKeepsView(Abs(), src, cr3, STACK_BASE);
      var p;
      d, p := CopyStackAt(src);
      MapFreshAt(d, p, STACK_BASE);
    }

    // ------------------------------------------------------------------ boot

    /** The globals as the boot loader leaves them: paging off, everything zero. */
    ghost predicate AtReset()
      reads this, pageBitmap
    {
      && pageBitmap.Length == 1024 && !paging && nextAddress == 0 && endOfPage == 0
      && numHeapPages == 0 && pageDirectory == 0 && role == map[] && blocks == [] && log == []
      && Boot(mem, Used(pageBitmap[..]) + BOOT_RESERVED).Some?
    }

    /** generatePageTable, from any bitmap. */
    method GeneratePageTable()
      requires AtReset()
      modifies this, pageBitmap
      ensures BitmapOk() && Some(Abs()) == Boot(old(mem), Used(old(pageBitmap[..])) + BOOT_RESERVED)
    {
      hide Used, KernelTables, HeapPage;
      ReserveBoot();
      BuildTables();
      NewHeapPage();
    }

    /** startPaging: the invariant holds once the tables are built and active. */
    method StartPaging()
      requires AtReset()
      modifies this, pageBitmap
      ensures Valid() && Some(Abs()) == Boot(old(mem), Used(old(pageBitmap[..])) + BOOT_RESERVED)
    {
      hide Used, Boot;
      BootEstablishes(mem, Used(pageBitmap[..]) + BOOT_RESERVED);
      GeneratePageTable();
      paging, cr3 := true, pageDirectory;
    }

    /** The kernel's directory and its one table. */
    method BuildTables()
      requires Booting() && Abs() == Mach(mem, used, 0, 0, 0, 0, map[], [], []) && KernelTables(mem, used).Some?
      modifies this`mem, this`role, this`used, this`log, this`pageDirectory, pageBitmap
      ensures Booting() && Some(Abs()) == KernelTables(old(mem), old(used))
    {
      hide AllocFrame, KernelTables, Used, Boot;
      ghost var m0 := Abs();
      KernelTablesAllocs(m0.mem, m0.used);
      AllocIsFresh(m0, Directory);
      pageDirectory := AllocPage(Directory);
      ghost var m1 := Abs();
      AllocIsFresh(m1, Table(0, pageDirectory));
      var table := AllocPage(Table(0, pageDirectory));
      KernelTablesValue(m0, m1, table, Abs());
      FillIdentity(table);
      StoreAt(pageDirectory, 0, table * PAGE + 3);
    }

    /** The bitmap words generatePageTable sets. */
    method ReserveBoot()
      requires pageBitmap.Length == 1024
      modifies this`used, pageBitmap
      ensures BitmapOk() && used == Used(old(pageBitmap[..])) + BOOT_RESERVED
    {
      for i := 5 to 16
        invariant forall j :: 0 <= j < 1024 ==> pageBitmap[j] == if 5 <= j < i then 0xFFFF_FFFF else old(pageBitmap[j])
      {
        pageBitmap[i] := 0xFFFF_FFFF;
      }
      pageBitmap[0] := BitSet(pageBitmap[0], 0);
      assert pageBitmap[..] == Reserved(old(pageBitmap[..]));
      ReservedFrames(old(pageBitmap[..]));
      used := Used(pageBitmap[..]);
      assert used == Used(old(pageBitmap[..])) + BOOT_RESERVED;
    }

    /** Identity map the first 512 pages, in a table still zeroed. */
    method FillIdentity(table: FrameNo)
      requires !paging && mem[table] == ZeroFrame()
      modifies this`mem
      ensures mem == old(mem)[table := IdentityTable()]
    {
      for j := 0 to WINDOW
        invariant mem == old(mem)[table := mem[table]]
        invariant forall k :: 0 <= k < SLOTS ==> mem[table][k] == if k < j then k * PAGE + 3 else 0
      {
        StoreAt(table, j, j * PAGE + 3);
      }
      assert mem[table] == IdentityTable();
    }
  }

  /** Word `i` of frame `f` as an address. */
  lemma WordAddress(f: FrameNo, i: SlotNo)
    ensures f * PAGE + 4 * i < WORD_LIMIT && (f * PAGE + 4 * i) / PAGE == f && (f * PAGE + 4 * i) % PAGE / 4 == i
  {
  }

  /** The walk for frame `x` at its own address, through the first table. */
  predicate Walks(mem: Memory, cr3: FrameNo, x: FrameNo) {
    x < WINDOW && mem[cr3][0] % PAGE == 3 && mem[mem[cr3][0] / PAGE][x] == x * PAGE + 3
  }

  lemma ReachedAt(mem: Memory, cr3: FrameNo, x: FrameNo, i: SlotNo)
    requires Walks(mem, cr3, x)
    ensures x * PAGE + 4 * i < WORD_LIMIT && Translate(mem, cr3, x * PAGE + 4 * i) == Some(x)
    ensures (x * PAGE + 4 * i) % PAGE / 4 == i
  {
    WordAddress(x, i);
    assert SlotOf(x * PAGE + 4 * i) == 0 && IndexOf(x * PAGE + 4 * i) == x;
  }

  /** Frames of the window that are not mapped elsewhere are walked to at their own address. */
  lemma KernelWalks(m: Mach, cr3: FrameNo, x: FrameNo)
    requires Sound(m) && IsDir(m, cr3) && x < WINDOW && (x in m.role ==> !m.role[x].Mapped?)
    ensures Walks(m.mem, cr3, x) && m.mem[cr3][0] / PAGE == LowTable(m) && IsTable(m, LowTable(m))
    ensures x !in m.role ==> x != cr3 && x != LowTable(m)
  {
    SlotTable(m, cr3, 0);
    assert m.mem[LowTable(m)][x] == LowEntry(m, x);
  }

  /** What mapPage needs to reach, before and after a table is allocated. */
  lemma BeforeMapping(m: Mach, cr3: FrameNo, dir: FrameNo, virt: Word)
    requires Sound(m) && IsDir(m, cr3) && IsDir(m, dir) && virt >= SLOT_SPAN
    requires ObtainTable(m, dir, SlotOf(virt)).Some?
    ensures var low := LowTable(m);
      var (m1, t) := ObtainTable(m, dir, SlotOf(virt)).value;
      && Walks(m.mem, cr3, dir) && m.mem[cr3][0] / PAGE == low
      && Walks(m1.mem, cr3, dir) && Walks(m1.mem, cr3, t) && Walks(m1.mem, cr3, low)
      && m1.mem[cr3][0] / PAGE == low && m1.mem[dir][0] == m1.mem[cr3][0]
      && dir != low && t != low && t != cr3 && t != dir
  {
    var (m1, t) := ObtainTable(m, dir, SlotOf(virt)).value;
    ObtainedTable(m, dir, SlotOf(virt));
    ObtainedIsNoDirectory(m, dir, SlotOf(virt), cr3);
    HighTable(m, dir, virt);
    KernelWalks(m, cr3, dir);
    KernelWalks(m, cr3, LowTable(m));
    KernelWalks(m, cr3, t);
  }

  lemma ObtainedIsNoDirectory(m: Mach, dir: FrameNo, slot: SlotNo, d: FrameNo)
    requires Structure(m) && IsDir(m, dir) && IsDir(m, d) && ObtainTable(m, dir, slot).Some?
    ensures ObtainTable(m, dir, slot).value.1 != d
  {
    ObtainedTable(m, dir, slot);
  }

  lemma KmallocKeepsDirectory(m: Mach, bytes: Word, d: FrameNo)
    requires Owned(m) && IsDir(m, d) && Kmalloc(m, bytes).Some?
    ensures IsDir(Kmalloc(m, bytes).value.0, d)
  {
    if Wrap(m.next + bytes) > m.end { AllocIsFresh(m, Heap); }
  }

  lemma HeapPageValue(m: Mach, m1: Mach, f: FrameNo)
    requires Some((m1, f)) == AllocFrame(m, Heap)
    ensures HeapPage(m) == Some(m1.(next := f * PAGE, end := Wrap(f * PAGE + PAGE), heapPages := m1.heapPages + 1))
  {
  }

  lemma KmallocValue(m: Mach, m1: Mach, bytes: Word)
    requires Some(m1) == HeapFor(m, bytes)
    ensures Kmalloc(m, bytes) == Bumped(m1, bytes)
  {
  }

  /** After allocating `d`, the source and kernel directories and `d` are all reached. */
  lemma ThreeWalks(m: Mach, cr3: FrameNo, src: FrameNo, d: FrameNo)
    requires Sound(m) && IsDir(m, cr3) && IsDir(m, src) && d !in m.role && d < WINDOW
    ensures var mem := m.mem[d := ZeroFrame()];
      && Walks(mem, cr3, src) && Walks(mem, cr3, m.kernelDir) && Walks(mem, cr3, d)
      && d != cr3 && d != mem[cr3][0] / PAGE && mem[cr3][0] == m.mem[cr3][0]
  {
    KernelWalks(m, cr3, src);
    KernelWalks(m, cr3, m.kernelDir);
    KernelWalks(m, cr3, d);
  }

  /** The stack table of the source is reached too; an absent one reads frame 0. */
  lemma StackTable(m: Mach, cr3: FrameNo, src: FrameNo, p: FrameNo)
    requires Sound(m) && IsDir(m, cr3) && IsDir(m, src) && p !in m.role && p < WINDOW
    ensures Walks(m.mem[p := ZeroFrame()], cr3, m.mem[src][STACK_SLOT] / PAGE)
  {
    SlotTable(m, src, STACK_SLOT);
    KernelWalks(m, cr3, m.mem[src][STACK_SLOT] / PAGE);
    KernelWalks(m, cr3, p);
  }

  /** What generatePageTable reserves: frame 0 and the words 5..15. */
  function Reserved(words: seq<bv32>): seq<bv32>
    requires |words| == 1024
  {
    seq(1024, i requires 0 <= i < 1024 =>
      if i == 0 then BitSet(words[0], 0) else if 5 <= i < 16 then 0xFFFF_FFFF else words[i])
  }

  /** The frames generatePageTable reserves. */
  ghost const BOOT_RESERVED: set<nat> := {0} + (set f: nat | FREE_TOP <= f < WINDOW)

  /** It puts frame 0 and the frames 160..511 in use, and frees none. */
  lemma ReservedFrames(words: seq<bv32>)
    requires |words| == 1024
    ensures forall f: nat :: f in Used(Reserved(words)) <==> f in Used(words) || f == 0 || 160 <= f < 512
    ensures Used(Reserved(words)) == Used(words) + BOOT_RESERVED
  {
    var words' := Reserved(words);
    forall f: nat | f < 32 * 1024 ensures InUse(words', f) <==> InUse(words, f) || f == 0 || FREE_TOP <= f < WINDOW {
      if f / 32 == 0 {
        SetOneBit(words[0], 0, BitOf(f));
        if f != 0 { BitOfDistinct(f, 0); }
      } else if 5 <= f / 32 < 16 {
        FullWord(BitOf(f));
      }
    }
  }

  lemma KernelTablesAllocs(mem: Memory, used: set<nat>)
    requires KernelTables(mem, used).Some?
    ensures var m0 := Mach(mem, used, 0, 0, 0, 0, map[], [], []);
      && AllocFrame(m0, Directory).Some?
      && var (m1, d) := AllocFrame(m0, Directory).value;
      AllocFrame(m1.(kernelDir := d), Table(0, d)).Some?
  {
  }

  lemma KernelTablesValue(m0: Mach, m1: Mach, t: FrameNo, m2: Mach)
    requires m0 == Mach(m0.mem, m0.used, 0, 0, 0, 0, map[], [], [])
    requires Some((m1.(kernelDir := 0), m1.kernelDir)) == AllocFrame(m0, Directory)
    requires Some((m2, t)) == AllocFrame(m1, Table(0, m1.kernelDir))
    ensures KernelTables(m0.mem, m0.used)
      == Some(m2.(mem := Store(m2.mem[t := IdentityTable()], m1.kernelDir, 0, t * PAGE + 3)))
  {
  }

  lemma NewDirectoryValue(m: Mach, m1: Mach, src: FrameNo, d: FrameNo)
    requires Some((m1, d)) == AllocFrame(m, Page)
    ensures NewDirectory(m, src) == Some((m1.(mem := m1.mem[d := SharedSlots(m1.mem[src], m1.mem[m1.kernelDir])],
      role := m1.role[d := Directory]), d))
    ensures m1.mem[d] == ZeroFrame()
  {
  }

  lemma CopyStackValue(m: Mach, src: FrameNo, d: FrameNo, m1: Mach, p: FrameNo, m2: Mach)
    requires Some((m1, d)) == NewDirectory(m, src) && Some((m2, p)) == AllocFrame(m1, Page)
    ensures CopyStack(m, src) == Some((m2.(mem := m2.mem[p := m2.mem[StackFrame(m2.mem, src)]]), d, p))
  {
  }

  /** What copying the stack page reaches, after both frames are allocated. */
  lemma BeforeStackCopy(m: Mach, cr3: FrameNo, src: FrameNo)
    requires Sound(m) && IsDir(m, cr3) && IsDir(m, src) && CopyStack(m, src).Some?
    ensures var (m1, d) := NewDirectory(m, src).value;
      var (m2, p) := AllocFrame(m1, Page).value;
      && Sound(m1) && IsDir(m1, cr3) && m1.kernelDir == m.kernelDir
      && Walks(m2.mem, cr3, src) && Walks(m2.mem, cr3, m2.mem[src][STACK_SLOT] / PAGE) && Walks(m2.mem, cr3, p)
      && p != cr3 && p != m2.mem[cr3][0] / PAGE
  {
    var (m1, d) := NewDirectory(m, src).value;
    AllocIsFresh(m, Page);
    NewDirectoryKeepsSound(m, src);
    AllocIsFresh(m1, Page);
    var (m2, p) := AllocFrame(m1, Page).value;
    ThreeWalks(m1, cr3, src, p);
    StackTable(m1, cr3, src, p);
  }
}
