/** Values with a failure case, used with `:-`. */
module Options {
  datatype Option<+T> = None | Some(value: T) {
    predicate IsFailure() { None? }
    function PropagateFailure<U>(): Option<U>
      requires None?
    {
      None
    }
    function Extract(): T
      requires Some?
    {
      value
    }
  }
}

/** The 32-bit machine the kernel runs on: words, 4 KiB frames of 1024 words,
    physical memory, and the two-level address translation of 32-bit paging. */
module Machine {
  import opened Options

  const WORD_LIMIT := 0x1_0000_0000
  const FRAMES := 0x10_0000
  const SLOTS := 1024
  const PAGE := 0x1000
  const SLOT_SPAN := 0x40_0000

  type Word = w: int | 0 <= w < WORD_LIMIT
  type FrameNo = f: int | 0 <= f < FRAMES
  type SlotNo = i: int | 0 <= i < SLOTS
  type Frame = f: seq<Word> | |f| == SLOTS witness seq(SLOTS, _ => 0)
  type Memory = m: seq<Frame> | |m| == FRAMES witness seq<Frame>(FRAMES, _ => ZeroFrame())

  /** Arithmetic in 32 bits. */
  function Wrap(x: int): Word { x % WORD_LIMIT }

  function ZeroFrame(): Frame {
    seq(SLOTS, _ => 0)
  }

  function Store(mem: Memory, f: FrameNo, i: SlotNo, w: Word): Memory {
    mem[f := mem[f][i := w]]
  }

  /** The directory slot and the table index a virtual address selects. */
  function SlotOf(va: Word): SlotNo { va / SLOT_SPAN }
  function IndexOf(va: Word): SlotNo { va / PAGE % SLOTS }

  /** The two-level walk: the frame behind a virtual address, None on a page fault. */
  function Translate(mem: Memory, dir: FrameNo, va: Word): Option<FrameNo> {
    var pde := mem[dir][SlotOf(va)];
    if pde % 2 == 0 then None else
    var pte := mem[pde / PAGE][IndexOf(va)];
    if pte % 2 == 0 then None else Some(pte / PAGE)
  }

  /** Slot, index and offset make up the address: 10, 10 and 12 bits. */
  lemma AddressParts(va: Word)
    ensures SlotOf(va) * SLOT_SPAN + IndexOf(va) * PAGE + va % PAGE == va
  {
    assert va == va / PAGE * PAGE + va % PAGE;
    assert va / PAGE == va / PAGE / SLOTS * SLOTS + va / PAGE % SLOTS;
    assert va / SLOT_SPAN == va / PAGE / SLOTS;
  }

  /** Two addresses are on the same page exactly when slot and index agree. */
  lemma SamePage(a: Word, b: Word)
    ensures a / PAGE == b / PAGE <==> SlotOf(a) == SlotOf(b) && IndexOf(a) == IndexOf(b)
  {
    assert a / SLOT_SPAN == a / PAGE / SLOTS && b / SLOT_SPAN == b / PAGE / SLOTS;
  }
}
