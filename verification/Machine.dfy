/** Physical memory, page-table words and the kernel's global variables. */
module Machine {

  /** One 32-bit machine word. */
  type Word = w: int | 0 <= w < 0x1_0000_0000

  /** A 20-bit page number, used for physical frames and for virtual pages. */
  type PageNo = p: nat | p < 0x100000

  /** An index into a page table or a page directory. */
  type Slot = i: nat | i < 1024

  /** All of physical memory: 2^20 frames of 1024 words. */
  type Ram = m: seq<Word> | |m| == 0x4000_0000 ghost witness seq(0x4000_0000, i => 0)

  const RAM_WORDS: nat := 0x4000_0000
  const TABLE_BYTES: nat := 0x400000  // what one table of 1024 pages covers

  // Flag bits of virtual and linear entries.
  const MAPPED: nat := 0x207          // ALLOCATED | READWRITE | USERSUPER | LINEAR
  const IMAGE: nat := 0x007           // ALLOCATED | READWRITE | USERSUPER
  const ASSIGNED: nat := 0x200
  const ASSIGNED_ZERO: nat := 0x600
  const LINEAR_ALLOCATED: nat := 0x100
  const LINEAR_AVAILABLE: nat := 0x200

  /** An entry word: a page number in the upper 20 bits, flags in the lower 12. */
  function Entry(page: PageNo, flags: nat): (w: Word)
    requires flags < 4096
    ensures Frame(w) == page && Flags(w) == flags
  {
    page * 4096 + flags
  }

  function Frame(w: Word): PageNo {
    w / 4096
  }

  function Flags(w: Word): nat {
    w % 4096
  }

  /** VIRTUAL_ALLOCATED, bit 0. */
  predicate Present(w: Word) {
    Flags(w) % 2 == 1
  }

  /** VIRTUAL_ASSIGNED, bit 9 (also VIRTUAL_LINEAR). */
  predicate Assigned(w: Word) {
    Flags(w) / 512 % 2 == 1
  }

  /** VIRTUAL_ZERO, bit 10. */
  predicate ZeroFill(w: Word) {
    Flags(w) / 1024 % 2 == 1
  }

  /** LINEAR_ALLOCATED, bit 8. */
  predicate LinAllocated(w: Word) {
    Flags(w) / 256 % 2 == 1
  }

  /** LINEAR_AVAILABLE, bit 9. */
  predicate LinAvailable(w: Word) {
    Flags(w) / 512 % 2 == 1
  }

  /** The directory index of a page: the upper ten bits of its number. */
  function Dir(p: PageNo): Slot {
    p / 1024
  }

  /** The table index of a page: the lower ten bits of its number. */
  function Tab(p: PageNo): Slot {
    p % 1024
  }

  function PageAt(d: Slot, t: Slot): (p: PageNo)
    ensures Dir(p) == d && Tab(p) == t
  {
    d * 1024 + t
  }

  /** The byte address of a page. */
  function Address(p: PageNo): (w: Word)
    ensures Frame(w) == p && Flags(w) == 0
  {
    p * 4096
  }

  /** Word i of frame f. */
  function Cell(m: Ram, f: PageNo, i: Slot): Word {
    m[f * 1024 + i]
  }

  /** Memory after one store. */
  function Poke(m: Ram, f: PageNo, i: Slot, w: Word): (r: Ram)
    ensures forall g: PageNo, j: Slot {:trigger Cell(r, g, j)} ::
              Cell(r, g, j) == if g == f && j == i then w else Cell(m, g, j)
  {
    m[f * 1024 + i := w]
  }

  /** Memory after frame f has been filled with zero words. */
  function Clear(m: Ram, f: PageNo): (r: Ram)
    ensures forall g: PageNo, j: Slot {:trigger Cell(r, g, j)} ::
              Cell(r, g, j) == if g == f then 0 else Cell(m, g, j)
  {
    m[..f * 1024] + seq(1024, i => 0) + m[f * 1024 + 1024..]
  }

  /** The frame's 1024 words. */
  function Contents(m: Ram, f: PageNo): (s: seq<Word>)
    ensures |s| == 1024
    ensures forall i: Slot :: s[i] == Cell(m, f, i)
  {
    m[f * 1024..f * 1024 + 1024]
  }

  /** A frame allocator zone; all three fields are byte addresses. */
  datatype Zone = Zone(next: Word, start: Word, end: Word)

  const ZONE_NORMAL: nat := 0
  const ZONE_DMA: nat := 1
  const ZONE_KERNEL: nat := 2

  /** A pointer to a record of the virtual heap. */
  datatype Link = Null | To(index: nat)

  /** A record of the virtual heap: `count` pages from page number `page`, linked to the next
      record of its list. Records live in arrays and are never given back. */
  datatype VmPage = VmPage(next: Link, count: nat, page: nat)

  /** What a physical frame is used for. */
  datatype Role =
    | Free
    | Reserved            // kernel image, heap records, identity-mapped data
    | LinDir
    | LinTab(table: Slot)
    | VirDir
    | VirTab(table: Slot)
    | Data(page: PageNo)  // holds the contents of a heap page or of a page of an image

  /** The kernel's global variables and the memory they live beside. */
  class Kernel {
    const ram: array<Word>
    var linearDir: PageNo
    var virtualDir: PageNo
    var zones: seq<Zone>
    var records: seq<VmPage>         // every record ever cut from virtual_block->pages
    var free: Link
    var used: Link
    var pagesIndex: nat
    var heapNext: nat                // virtual_address / KPAGESIZE
    ghost var roles: seq<Role>
    ghost var upper: nat             // the memory size kmemory_linear_setup was given
    ghost var freeList: seq<nat>     // the records of the two lists, in order
    ghost var usedList: seq<nat>
    ghost var lengths: seq<nat>      // for each record, the pages in use while it is on the used list

    constructor (ram: array<Word>)
      requires ram.Length == RAM_WORDS
      ensures this.ram == ram
      ensures zones == [Zone(0, 0, 0), Zone(0, 0, 0), Zone(0, 0, 0)]
    {
      this.ram := ram;
      linearDir, virtualDir := 0, 0;
      zones := [Zone(0, 0, 0), Zone(0, 0, 0), Zone(0, 0, 0)];
      records, free, used, pagesIndex, heapNext := [], Null, Null, 0, 0;
      roles, upper, freeList, usedList, lengths := [], 0, [], [], [];
    }

    /** Memory as a value. */
    ghost function Mem(): Ram
      requires ram.Length == RAM_WORDS
      reads ram
    {
      ram[..]
    }

    function Load(f: PageNo, i: Slot): (w: Word)
      requires ram.Length == RAM_WORDS
      reads ram
      ensures w == Cell(Mem(), f, i)
    {
      ram[f * 1024 + i]
    }

    method Store(f: PageNo, i: Slot, w: Word)
      requires ram.Length == RAM_WORDS
      modifies ram
      ensures Mem() == Poke(old(Mem()), f, i, w)
    {
      ram[f * 1024 + i] := w;
    }

    /** clear_pages for one page. */
    method ClearPage(f: PageNo)
      requires ram.Length == RAM_WORDS
      modifies ram
      ensures Mem() == Clear(old(Mem()), f)
    {
      var n := 0;
      while n < 1024
        invariant 0 <= n <= 1024
        invariant forall k :: 0 <= k < RAM_WORDS ==>
                    ram[k] == if f * 1024 <= k < f * 1024 + n then 0 else old(ram[k])
      {
        ram[f * 1024 + n] := 0;
        n := n + 1;
      }
    }
  }
}
