/** read_elf, arch/ia32/memory.c: two passes over the program headers of an image. Physical memory
    is a grid of frames and offsets, and the page tables appear as the translation they give. */
module Elf {

  import opened Basics

  const PAGE: nat := 4096

  /** The value at virtual address a of an area that holds `data` from address `base` on and zeros
      elsewhere. */
  function Image(data: seq<Byte>, base: nat, a: int): Byte {
    if base <= a < base + |data| then data[a - base] else 0
  }

  /** The page of the k-th byte of an area. */
  function PageAt(base: nat, k: nat): nat {
    (base + k) / PAGE
  }

  /** The virtual address of offset o in frame f, when page `first` is mapped to frame `run` and
      pages and frames go on together. */
  function Address(first: nat, run: nat, f: nat, o: nat): int {
    (first + f - run) * PAGE + o
  }

  lemma AddressIs(first: nat, run: nat, f: nat, o: nat, a: nat)
    requires run <= f && o < PAGE
    ensures Address(first, run, f, o) == a <==> f == run + a / PAGE - first && o == a % PAGE
  {
    var p := first + f - run;
    assert (p * PAGE + o) / PAGE == p && (p * PAGE + o) % PAGE == o;
  }

  /** Pages first to first + count are mapped to the frames from `run` on. */
  predicate Maps(pages: map<nat, nat>, first: nat, run: nat, count: nat) {
    forall p :: first <= p < first + count ==> p in pages && pages[p] == run + (p - first)
  }

  class Space {
    const ram: array2<Byte>
    var pages: map<nat, nat>

    constructor (ram: array2<Byte>)
      requires ram.Length1 == PAGE && ram.Length0 <= 0x10_0000
      ensures Valid() && this.ram == ram && pages == map[]
    {
      this.ram, pages := ram, map[];
    }

    ghost predicate Valid()
      reads this
    {
      ram.Length1 == PAGE && ram.Length0 <= 0x10_0000 && forall p :: p in pages ==> pages[p] < ram.Length0
    }

    /** The byte at a virtual address. */
    function At(a: nat): Byte
      requires Valid() && a / PAGE in pages
      reads this, ram
    {
      ram[pages[a / PAGE], a % PAGE]
    }

    /** Frames `run` to run + count hold `data` at virtual address `base` and zeros around it. */
    ghost predicate Holds(first: nat, run: nat, count: nat, base: nat, data: seq<Byte>)
      requires Valid() && run + count <= ram.Length0
      reads this, ram
    {
      forall f, o :: run <= f < run + count && 0 <= o < PAGE ==>
                       ram[f, o] == Image(data, base, Address(first, run, f, o))
    }

    /** All frames but those from `run` to run + count are as they were. */
    twostate predicate OnlyFrames(run: nat, count: nat)
      reads ram
    {
      forall f, o :: 0 <= f < ram.Length0 && 0 <= o < ram.Length1 && !(run <= f < run + count) ==>
                       ram[f, o] == old(ram[f, o])
    }

    method Store(a: nat, b: Byte)
      requires Valid() && a / PAGE in pages
      modifies ram
      ensures forall f, o :: 0 <= f < ram.Length0 && 0 <= o < PAGE ==>
                ram[f, o] == if f == pages[a / PAGE] && o == a % PAGE then b else old(ram[f, o])
    {
      ram[pages[a / PAGE], a % PAGE] := b;
    }

    /** clear_pages(v * KPAGESIZE, 1) through the page's mapping. */
    method ClearPage(v: nat)
      requires Valid() && v in pages
      modifies ram
      ensures forall o :: 0 <= o < PAGE ==> ram[pages[v], o] == 0
      ensures OnlyFrames(pages[v], 1)
    {
      var n := 0;
      while n < PAGE
        invariant 0 <= n <= PAGE
        invariant forall o :: 0 <= o < n ==> ram[pages[v], o] == 0
        invariant OnlyFrames(pages[v], 1)
      {
        assert (v * PAGE + n) / PAGE == v && (v * PAGE + n) % PAGE == n;
        Store(v * PAGE + n, 0);
        n := n + 1;
      }
    }

    /** The inner loop of the first pass: `count` pages are mapped to a run of frames and cleared. */
    method MapRun(first: nat, run: nat, count: nat)
      requires Valid() && run + count <= ram.Length0
      modifies this`pages, ram
      ensures Valid() && Maps(pages, first, run, count)
      ensures forall p :: !(first <= p < first + count) ==> (p in pages <==> p in old(pages))
      ensures forall p :: !(first <= p < first + count) && p in pages ==> pages[p] == old(pages)[p]
      ensures OnlyFrames(run, count)
      ensures forall base :: Holds(first, run, count, base, [])
    {
      var j := 0;
      while j < count
        invariant 0 <= j <= count && Valid() && Maps(pages, first, run, j)
        invariant forall p :: !(first <= p < first + j) ==> (p in pages <==> p in old(pages))
        invariant forall p :: !(first <= p < first + j) && p in pages ==> pages[p] == old(pages)[p]
        invariant OnlyFrames(run, count)
        invariant forall f, o :: run <= f < run + j && 0 <= o < PAGE ==> ram[f, o] == 0
      {
        pages := pages[first + j := run + j];
        ClearPage(first + j);
        j := j + 1;
      }
    }

    /** One byte of a copy. */
    method CopyByte(dst: nat, src: nat, i: nat, ghost first: nat, ghost run: nat, ghost count: nat,
                    ghost data: seq<Byte>)
      requires Valid() && run + count <= ram.Length0 && Maps(pages, first, run, count)
      requires i < |data| && first * PAGE <= dst && dst + |data| <= (first + count) * PAGE
      requires PageAt(src, i) in pages && At(src + i) == data[i]
      requires Holds(first, run, count, dst, data[..i])
      modifies ram
      ensures Holds(first, run, count, dst, data[..i + 1])
      ensures OnlyFrames(run, count)
    {
      var a := dst + i;
      PageOf(a, first, count);
      Store(a, At(src + i));
      forall f, o | run <= f < run + count && 0 <= o < PAGE
        ensures ram[f, o] == Image(data[..i + 1], dst, Address(first, run, f, o))
      {
        AddressIs(first, run, f, o, a);
      }
    }

    /** The bytes to be copied are mapped, outside the run of frames that is written. */
    ghost predicate Source(src: nat, data: seq<Byte>, run: nat, count: nat)
      requires Valid()
      reads this, ram
    {
      forall k :: 0 <= k < |data| ==>
        && PageAt(src, k) in pages && !(run <= pages[PageAt(src, k)] < run + count)
        && At(src + k) == data[k]
    }

    /** movsl, movsw or movsb: `width` bytes. */
    method CopyGroup(dst: nat, src: nat, i: nat, width: nat, ghost first: nat, ghost run: nat, ghost count: nat,
                     ghost data: seq<Byte>)
      requires Valid() && run + count <= ram.Length0 && Maps(pages, first, run, count)
      requires i + width <= |data| && first * PAGE <= dst && dst + |data| <= (first + count) * PAGE
      requires Source(src, data, run, count) && Holds(first, run, count, dst, data[..i])
      modifies ram
      ensures Source(src, data, run, count) && Holds(first, run, count, dst, data[..i + width])
      ensures OnlyFrames(run, count)
    {
      var n := 0;
      while n < width
        invariant 0 <= n <= width
        invariant Source(src, data, run, count) && Holds(first, run, count, dst, data[..i + n])
        invariant OnlyFrames(run, count)
      {
        assert PageAt(src, i + n) in pages;
        CopyByte(dst, src, i + n, first, run, count, data);
        n := n + 1;
      }
    }

    /** kmemory_virtual_copy: words first, then what is left of the size. */
    method Copy(dst: nat, src: nat, size: nat, ghost first: nat, ghost run: nat, ghost count: nat,
                ghost data: seq<Byte>)
      requires Valid() && run + count <= ram.Length0 && Maps(pages, first, run, count)
      requires |data| == size && first * PAGE <= dst && dst + size <= (first + count) * PAGE
      requires Source(src, data, run, count) && Holds(first, run, count, dst, [])
      modifies ram
      ensures Holds(first, run, count, dst, data) && OnlyFrames(run, count)
    {
      hide Holds, Source;
      assert data[..0] == [];
      var words := 0;
      while words < size / 4
        invariant 0 <= words <= size / 4
        invariant Source(src, data, run, count) && Holds(first, run, count, dst, data[..words * 4])
        invariant OnlyFrames(run, count)
      {
        CopyGroup(dst, src, words * 4, 4, first, run, count, data);
        words := words + 1;
      }
      var i := words * 4;
      if size / 2 % 2 == 1 {
        CopyGroup(dst, src, i, 2, first, run, count, data);
        i := i + 2;
      }
      if size % 2 == 1 {
        CopyGroup(dst, src, i, 1, first, run, count, data);
        i := i + 1;
      }
      assert data[..i] == data;
    }

    // ----------------------------------------------------------- the image

    /** The image lies at virtual address `buffer`. */
    ghost predicate Buffered(buffer: nat, file: seq<Byte>)
      requires Valid()
      reads this, ram
    {
      forall k :: 0 <= k < |file| ==> PageAt(buffer, k) in pages && At(buffer + k) == file[k]
    }

    method ReadByte(buffer: nat, off: nat, ghost file: seq<Byte>) returns (b: Byte)
      requires Valid() && Buffered(buffer, file) && off < |file|
      ensures b == file[off]
    {
      assert PageAt(buffer, off) in pages;
      b := At(buffer + off);
    }

    method ReadHalf(buffer: nat, off: nat, ghost file: seq<Byte>) returns (w: nat)
      requires Valid() && Buffered(buffer, file) && off + 2 <= |file|
      ensures w == Half(file, off)
    {
      var b0 := ReadByte(buffer, off, file);
      var b1 := ReadByte(buffer, off + 1, file);
      w := b0 as nat + 0x100 * (b1 as nat);
    }

    method ReadWord(buffer: nat, off: nat, ghost file: seq<Byte>) returns (w: nat)
      requires Valid() && Buffered(buffer, file) && off + 4 <= |file|
      ensures w == Word(file, off)
    {
      var h0 := ReadHalf(buffer, off, file);
      var h1 := ReadHalf(buffer, off + 2, file);
      w := h0 + 0x1_0000 * h1;
    }

    /** The fields of a program header that read_elf uses. */
    method ReadHeader(buffer: nat, at: nat, ghost file: seq<Byte>) returns (h: Header)
      requires Valid() && Buffered(buffer, file) && at + HEADER_SIZE <= |file|
      ensures h == HeaderOf(file, at)
    {
      hide Buffered, Word;
      var kind := ReadWord(buffer, at, file);
      var offset := ReadWord(buffer, at + 4, file);
      var vaddr := ReadWord(buffer, at + 8, file);
      var filesz := ReadWord(buffer, at + 16, file);
      var memsz := ReadWord(buffer, at + 20, file);
      h := Header(kind, offset, vaddr, filesz, memsz);
    }

    method CheckIdent(buffer: nat, ghost file: seq<Byte>) returns (ok: bool)
      requires Valid() && Buffered(buffer, file) && FILE_HEADER <= |file|
      ensures ok == Identified(file)
    {
      hide Buffered;
      var b0 := ReadByte(buffer, 0, file);
      var b1 := ReadByte(buffer, 1, file);
      var b2 := ReadByte(buffer, 2, file);
      var b3 := ReadByte(buffer, 3, file);
      var class_ := ReadByte(buffer, 4, file);
      var encoding := ReadByte(buffer, 5, file);
      var version := ReadByte(buffer, 6, file);
      ok := b0 == 0x7F && b1 == 0x45 && b2 == 0x4C && b3 == 0x46 && class_ == 1 && encoding == 1 && version == 1;
    }

    /** The condition on the file header. */
    method Check(buffer: nat, ghost file: seq<Byte>) returns (ok: bool)
      requires Valid() && Buffered(buffer, file) && FILE_HEADER <= |file|
      ensures ok == Accepted(file)
    {
      hide Buffered, Identified, Half, Word;
      ok := CheckIdent(buffer, file);
      var kind := ReadHalf(buffer, 16, file);
      var machine := ReadHalf(buffer, 18, file);
      var version := ReadWord(buffer, 20, file);
      var entry := ReadWord(buffer, 24, file);
      var phoff := ReadWord(buffer, 28, file);
      ok := ok && kind == 2 && machine == 3 && version == 1 && entry > 0 && phoff > 0;
    }

    /** A segment's pages are mapped to its frames and hold `data` and zeros. */
    ghost predicate Has(h: Header, run: nat, data: seq<Byte>)
      requires Valid()
      reads this, ram
    {
      && run + Count(h) <= ram.Length0 && Maps(pages, First(h), run, Count(h))
      && Holds(First(h), run, Count(h), h.vaddr, data)
    }

    /** The frames and pages of the segment are apart from those of the image in memory. */
    ghost predicate ImageApart(buffer: nat, size: nat, h: Header, run: nat)
      reads this
    {
      forall k :: 0 <= k < size ==>
        && !(First(h) <= PageAt(buffer, k) < First(h) + Count(h))
        && (PageAt(buffer, k) in pages ==> !(run <= pages[PageAt(buffer, k)] < run + Count(h)))
    }

    /** What read_elf takes for granted of an accepted image and of the frames that get_free_pages
        gives: headers and contents lie in the file, segments do not overlap in pages or frames, and
        neither overlaps the image itself. */
    ghost predicate Loadable(buffer: nat, file: seq<Byte>, runs: seq<nat>)
      reads this
    {
      Sane(file, runs, ram.Length0) &&
      forall i :: 0 <= i < |runs| && Loads(file, i) ==> ImageApart(buffer, |file|, HeaderAt(file, i), runs[i])
    }

    /** Only pages first to first + count, and only the frames from `run` on, have been touched. */
    twostate predicate OnlySegment(h: Header, run: nat)
      reads this, ram
    {
      && (forall p :: !(First(h) <= p < First(h) + Count(h)) ==> (p in pages <==> p in old(pages)))
      && (forall p :: !(First(h) <= p < First(h) + Count(h)) && p in pages ==> pages[p] == old(pages)[p])
      && OnlyFrames(run, Count(h))
    }

    twostate lemma BufferedKept(new buffer: nat, new file: seq<Byte>, new h: Header, new run: nat)
      requires old(Valid())
      requires Valid()
      requires old(Buffered(buffer, file)) && old(ImageApart(buffer, |file|, h, run))
      requires OnlySegment(h, run)
      ensures Buffered(buffer, file)
    {
      forall k | 0 <= k < |file|
        ensures PageAt(buffer, k) in pages && At(buffer + k) == file[k]
      {
        assert old(PageAt(buffer, k) in pages);
        assert old(At(buffer + k)) == file[k];
      }
    }

    twostate lemma HasKept(new g: Header, new s: nat, new data: seq<Byte>, new h: Header, new run: nat)
      requires old(Valid())
      requires Valid()
      requires old(Has(g, s, data)) && OnlySegment(h, run) && Apart(g, s, h, run)
      ensures Has(g, s, data)
    {
      hide Image, First, Count, Address;
    }

    twostate lemma StepKeeps(new buffer: nat, new file: seq<Byte>, new runs: seq<nat>, new h: Header, new run: nat)
      requires old(Loadable(buffer, file, runs)) && old(ImageApart(buffer, |file|, h, run)) && OnlySegment(h, run)
      ensures Loadable(buffer, file, runs)
    {
      hide Sane, HeaderAt, Loads, First, Count;
    }

    /** Nothing but segments has been touched. */
    twostate predicate OnlySegments(file: seq<Byte>, runs: seq<nat>)
      requires Headed(file, runs)
      reads this, ram
    {
      && (forall p :: !InSegment(file, runs, p) ==> (p in pages <==> p in old(pages)))
      && (forall p :: !InSegment(file, runs, p) && p in pages ==> pages[p] == old(pages)[p])
      && (forall f, o :: 0 <= f < ram.Length0 && 0 <= o < ram.Length1 && !InRun(file, runs, f) ==>
                           ram[f, o] == old(ram[f, o]))
    }

    /** All segments of the first n headers hold what they should. */
    ghost predicate AllHave(file: seq<Byte>, runs: seq<nat>, lo: nat, hi: nat, filled: bool)
      requires Valid() && Headed(file, runs) && hi <= |runs|
      reads this, ram
    {
      forall j :: lo <= j < hi && Loads(file, j) ==>
          Has(HeaderAt(file, j), runs[j], Wanted(file, HeaderAt(file, j), filled))
    }

    /** One header of the first pass. */
    method MapSegment(buffer: nat, ghost file: seq<Byte>, runs: seq<nat>, i: nat)
      requires Valid() && Buffered(buffer, file) && Headed(file, runs) && Loadable(buffer, file, runs) && i < |runs|
      requires AllHave(file, runs, 0, i, false)
      modifies this`pages, ram
      ensures Valid() && Buffered(buffer, file) && Loadable(buffer, file, runs)
      ensures AllHave(file, runs, 0, i + 1, false) && OnlySegments(file, runs)
    {
      hide Has, Sane, Loadable, HeaderAt, Wanted, Buffered, AllHave, InSegment, InRun;
      var h := ReadHeaderAt(buffer, i, file, runs);
      if h.kind == PT_LOAD {
        assert Loads(file, i);
        MapLoad(buffer, h, file, runs, i);
      }
      OneMore(file, runs, 0, i, false);
    }

    /** ... that is to be loaded. */
    method MapLoad(ghost buffer: nat, h: Header, ghost file: seq<Byte>, runs: seq<nat>, i: nat)
      requires Valid() && Buffered(buffer, file) && Headed(file, runs) && Loadable(buffer, file, runs)
      requires i < |runs| && Loads(file, i) && h == HeaderAt(file, i) && AllHave(file, runs, 0, i, false)
      modifies this`pages, ram
      ensures Valid() && Buffered(buffer, file) && Loadable(buffer, file, runs) && OnlySegments(file, runs)
      ensures AllHave(file, runs, 0, i, false) && Has(h, runs[i], Wanted(file, h, false))
    {
      hide OnlySegment, Has, Sane, Loadable, HeaderAt, Sound, Apart, Wanted, Buffered, ImageApart, AllHave,
           OnlySegments, Holds, Maps, First, Count;
      SegmentFacts(buffer, file, runs, i);
      PlaceSegment(h, runs[i], file);
      AfterStep(buffer, file, runs, h, i);
      OthersKept(file, runs, 0, i, false, i);
    }

    lemma SegmentFacts(buffer: nat, file: seq<Byte>, runs: seq<nat>, i: nat)
      requires Headed(file, runs) && Loadable(buffer, file, runs) && i < |runs| && Loads(file, i)
      ensures var h := HeaderAt(file, i);
              && Sane(file, runs, ram.Length0) && ImageApart(buffer, |file|, h, runs[i])
              && Sound(file, h) && 1 <= runs[i] && runs[i] + Count(h) <= ram.Length0
              && Wanted(file, h, false) == [] && Wanted(file, h, true) == Contents(file, h)
    {
      SaneSegment(file, runs, ram.Length0, i);
      WantedIs(file, HeaderAt(file, i));
      hide Sane, HeaderAt, Sound, Count;
    }

    /** What every step of a pass keeps. */
    twostate lemma AfterStep(new buffer: nat, new file: seq<Byte>, new runs: seq<nat>, new h: Header, new i: nat)
      requires old(Valid())
      requires Valid()
      requires Headed(file, runs) && i < |runs| && Loads(file, i) && h == HeaderAt(file, i)
      requires old(Buffered(buffer, file)) && old(Loadable(buffer, file, runs))
      requires old(ImageApart(buffer, |file|, h, runs[i])) && OnlySegment(h, runs[i])
      ensures Buffered(buffer, file) && Loadable(buffer, file, runs) && OnlySegments(file, runs)
    {
      hide Buffered, Loadable, ImageApart, OnlySegment, OnlySegments, HeaderAt;
      BufferedKept(buffer, file, h, runs[i]);
      StepKeeps(buffer, file, runs, h, runs[i]);
      OneSegment(file, runs, h, i);
    }

    /** The part of the first pass that touches memory. */
    method PlaceSegment(h: Header, run: nat, ghost file: seq<Byte>)
      requires Valid() && Sound(file, h) && 1 <= run && run + Count(h) <= ram.Length0
      modifies this`pages, ram
      ensures Valid() && OnlySegment(h, run) && Has(h, run, [])
    {
      SoundCount(file, h);
      hide Count32, Sound, Maps;
      MapRun(h.vaddr / PAGE, run, Count32(h));
    }

    /** A header that loads nothing asks for nothing. */
    lemma OneMore(file: seq<Byte>, runs: seq<nat>, lo: nat, i: nat, filled: bool)
      requires Valid() && Headed(file, runs) && lo <= i < |runs| && AllHave(file, runs, lo, i, filled)
      requires Loads(file, i) ==> Has(HeaderAt(file, i), runs[i], Wanted(file, HeaderAt(file, i), filled))
      ensures AllHave(file, runs, lo, i + 1, filled)
    {
      hide Has, HeaderAt, Wanted, Loads;
    }

    /** Segments that a step does not concern keep what they hold. */
    twostate lemma OthersKept(new file: seq<Byte>, new runs: seq<nat>, new lo: nat, new hi: nat, new filled: bool,
                              new i: nat)
      requires old(Valid())
      requires Valid()
      requires Headed(file, runs) && Sane(file, runs, ram.Length0)
      requires i < |runs| && Loads(file, i)
      requires OnlySegment(HeaderAt(file, i), runs[i])
      requires hi <= |runs| && !(lo <= i < hi) && old(AllHave(file, runs, lo, hi, filled))
      ensures AllHave(file, runs, lo, hi, filled)
      decreases hi
    {
      hide OnlySegment, Has, Sane, HeaderAt, Loads, Apart, Wanted;
      if lo < hi {
        OthersKept(file, runs, lo, hi - 1, filled, i);
        if Loads(file, hi - 1) {
          SaneApart(file, runs, ram.Length0, hi - 1, i);
          HasKept(HeaderAt(file, hi - 1), runs[hi - 1], Wanted(file, HeaderAt(file, hi - 1), filled),
                  HeaderAt(file, i), runs[i]);
        }
      }
    }

    /** Program header i. */
    method ReadHeaderAt(buffer: nat, i: nat, ghost file: seq<Byte>, ghost runs: seq<nat>) returns (h: Header)
      requires Valid() && Buffered(buffer, file) && Headed(file, runs) && i < |runs|
      ensures h == HeaderAt(file, i)
    {
      hide Buffered, Half, Word;
      var phoff := ReadWord(buffer, 28, file);
      var size := ReadHalf(buffer, 42, file);
      assert HeaderPlace(file, i) + HEADER_SIZE <= |file|;
      h := ReadHeader(buffer, phoff + i * size, file);
    }

    twostate lemma OneSegment(new file: seq<Byte>, new runs: seq<nat>, new h: Header, new i: nat)
      requires Headed(file, runs) && i < |runs| && Loads(file, i) && h == HeaderAt(file, i) && OnlySegment(h, runs[i])
      ensures OnlySegments(file, runs)
    {
      hide HeaderAt, First, Count;
    }

    /** The first pass. */
    method MapSegments(buffer: nat, ghost file: seq<Byte>, runs: seq<nat>)
      requires Valid() && Buffered(buffer, file) && Headed(file, runs) && Loadable(buffer, file, runs)
      modifies this`pages, ram
      ensures Valid() && Buffered(buffer, file) && Loadable(buffer, file, runs)
      ensures AllHave(file, runs, 0, |runs|, false) && OnlySegments(file, runs)
    {
      hide Loadable, Buffered, Has, InSegment, InRun, Loads;
      var i := 0;
      while i < |runs|
        invariant 0 <= i <= |runs| && Valid() && Buffered(buffer, file) && Loadable(buffer, file, runs)
        invariant AllHave(file, runs, 0, i, false) && OnlySegments(file, runs)
      {
        MapSegment(buffer, file, runs, i);
        i := i + 1;
      }
    }

    /** The file's bytes of a segment can be read while the segment is written. */
    lemma SourceOf(buffer: nat, file: seq<Byte>, h: Header, run: nat)
      requires Valid() && Buffered(buffer, file) && ImageApart(buffer, |file|, h, run) && Sound(file, h)
      ensures Source(buffer + h.offset, Contents(file, h), run, Count(h))
    {
      hide First, Count;
      var src, data := buffer + h.offset, Contents(file, h);
      forall k | 0 <= k < |data|
        ensures PageAt(src, k) in pages && !(run <= pages[PageAt(src, k)] < run + Count(h)) && At(src + k) == data[k]
      {
        assert PageAt(src, k) == PageAt(buffer, h.offset + k);
      }
    }

    /** One header of the second pass. */
    method FillSegment(buffer: nat, ghost file: seq<Byte>, ghost runs: seq<nat>, i: nat)
      requires Valid() && Buffered(buffer, file) && Headed(file, runs) && Loadable(buffer, file, runs) && i < |runs|
      requires AllHave(file, runs, 0, i, true) && AllHave(file, runs, i, |runs|, false)
      modifies ram
      ensures Valid() && Buffered(buffer, file) && Loadable(buffer, file, runs)
      ensures AllHave(file, runs, 0, i + 1, true) && AllHave(file, runs, i + 1, |runs|, false)
      ensures OnlySegments(file, runs)
    {
      hide Has, Sane, Loadable, HeaderAt, Wanted, Buffered, AllHave, InSegment, InRun;
      var h := ReadHeaderAt(buffer, i, file, runs);
      OneLess(file, runs, i, |runs|, false);
      if h.kind == PT_LOAD {
        assert Loads(file, i);
        FillLoad(buffer, h, file, runs, i);
      }
      OneMore(file, runs, 0, i, true);
    }

    method FillLoad(buffer: nat, h: Header, ghost file: seq<Byte>, ghost runs: seq<nat>, ghost i: nat)
      requires Valid() && Buffered(buffer, file) && Headed(file, runs) && Loadable(buffer, file, runs)
      requires i < |runs| && Loads(file, i) && h == HeaderAt(file, i)
      requires AllHave(file, runs, 0, i, true) && AllHave(file, runs, i + 1, |runs|, false)
      requires Has(h, runs[i], Wanted(file, h, false))
      modifies ram
      ensures Buffered(buffer, file) && Loadable(buffer, file, runs) && OnlySegments(file, runs)
      ensures AllHave(file, runs, 0, i, true) && AllHave(file, runs, i + 1, |runs|, false)
      ensures Has(h, runs[i], Wanted(file, h, true))
    {
      hide OnlySegment, Has, Sane, Loadable, HeaderAt, Sound, Apart, Wanted, Buffered, ImageApart, AllHave,
           OnlySegments, Holds, Source, Maps, First, Count;
      SegmentFacts(buffer, file, runs, i);
      SourceOf(buffer, file, h, runs[i]);
      CopySegment(buffer, h, runs[i], file);
      AfterStep(buffer, file, runs, h, i);
      OthersKept(file, runs, 0, i, true, i);
      OthersKept(file, runs, i + 1, |runs|, false, i);
    }

    /** The part of the second pass that touches memory. */
    method CopySegment(buffer: nat, h: Header, ghost run: nat, ghost file: seq<Byte>)
      requires Valid() && Sound(file, h) && Has(h, run, [])
      requires Source(buffer + h.offset, Contents(file, h), run, Count(h))
      modifies ram
      ensures OnlySegment(h, run) && Has(h, run, Contents(file, h))
    {
      SegmentPages(h);
      hide Holds, Source, First, Count, Maps;
      Copy(h.vaddr, buffer + h.offset, h.filesz, First(h), run, Count(h), Contents(file, h));
    }

    lemma OneLess(file: seq<Byte>, runs: seq<nat>, lo: nat, hi: nat, filled: bool)
      requires Valid() && Headed(file, runs) && lo < hi <= |runs| && AllHave(file, runs, lo, hi, filled)
      ensures AllHave(file, runs, lo + 1, hi, filled)
      ensures Loads(file, lo) ==> Has(HeaderAt(file, lo), runs[lo], Wanted(file, HeaderAt(file, lo), filled))
    {
      hide Has, HeaderAt, Wanted, Loads;
    }

    /** The second pass. */
    method FillSegments(buffer: nat, ghost file: seq<Byte>, ghost runs: seq<nat>, count: nat)
      requires Valid() && Buffered(buffer, file) && Headed(file, runs) && Loadable(buffer, file, runs)
      requires count == |runs|
      requires AllHave(file, runs, 0, |runs|, false)
      modifies ram
      ensures Valid() && Buffered(buffer, file)
      ensures AllHave(file, runs, 0, |runs|, true) && OnlySegments(file, runs)
    {
      hide Loadable, Buffered, Has, InSegment, InRun, Loads;
      var i := 0;
      while i < count
        invariant 0 <= i <= |runs| && Valid() && Buffered(buffer, file) && Loadable(buffer, file, runs)
        invariant AllHave(file, runs, 0, i, true) && AllHave(file, runs, i, |runs|, false) && OnlySegments(file, runs)
      {
        FillSegment(buffer, file, runs, i);
        i := i + 1;
      }
    }

    /** read_elf. `runs` are the frames that get_free_pages gives, one run for each header. An image
        that is not accepted changes nothing; of an accepted one every segment holds its bytes of
        the file and zeros behind them, and nothing else is touched. */
    method ReadElf(buffer: nat, ghost file: seq<Byte>, runs: seq<nat>) returns (rc: nat, entry: nat)
      requires Valid() && FILE_HEADER <= |file| && Buffered(buffer, file)
      requires Accepted(file) ==> Headed(file, runs) && Loadable(buffer, file, runs)
      modifies this`pages, ram
      ensures Valid() && Buffered(buffer, file)
      ensures rc == if Accepted(file) then 0 else 1
      ensures !Accepted(file) ==> pages == old(pages) && OnlyFrames(0, 0)
      ensures Accepted(file) ==> entry == Word(file, 24) && OnlySegments(file, runs)
      ensures Accepted(file) ==> AllHave(file, runs, 0, |runs|, true)
    {
      hide Accepted, Buffered, Loadable, Has, InSegment, InRun, Loads, Half, Word, AllHave;
      var ok := Check(buffer, file);
      if !ok {
        return 1, 0;
      }
      LoadSegments(buffer, file, runs);
      rc := 0;
      entry := ReadWord(buffer, 24, file);
    }

    /** Both passes. */
    method LoadSegments(buffer: nat, ghost file: seq<Byte>, runs: seq<nat>)
      requires Valid() && Buffered(buffer, file) && Headed(file, runs) && Loadable(buffer, file, runs)
      modifies this`pages, ram
      ensures Valid() && Buffered(buffer, file) && OnlySegments(file, runs) && AllHave(file, runs, 0, |runs|, true)
    {
      hide Loadable, Buffered, Has, InSegment, InRun, Loads, Half, Word;
      MapSegments(buffer, file, runs);
      var count := ReadHalf(buffer, 44, file);
      assert count == |runs|;
      FillSegments(buffer, file, runs, count);
    }

    /** Byte k of a loaded segment is byte k of its part of the file, or zero behind that. */
    lemma LoadedByte(file: seq<Byte>, runs: seq<nat>, i: nat, k: nat)
      requires Valid() && Headed(file, runs) && Sane(file, runs, ram.Length0) && AllHave(file, runs, 0, |runs|, true)
      requires i < |runs| && Loads(file, i) && k < HeaderAt(file, i).memsz
      ensures var h := HeaderAt(file, i);
              && (h.vaddr + k) / PAGE in pages && h.offset + h.filesz <= |file|
              && At(h.vaddr + k) == if k < h.filesz then file[h.offset + k] else 0
    {
      var h := HeaderAt(file, i);
      SaneSegment(file, runs, ram.Length0, i);
      SegmentPages(h);
      assert Has(h, runs[i], Contents(file, h));
      hide Sane, HeaderAt, Loads, AllHave, Headed;
      var a := h.vaddr + k;
      PageOf(a, First(h), Count(h));
      var f := runs[i] + a / PAGE - First(h);
      AddressIs(First(h), runs[i], f, a % PAGE, a);
    }
  }

  lemma PageOf(a: nat, first: nat, count: nat)
    requires first * PAGE <= a < (first + count) * PAGE
    ensures first <= a / PAGE < first + count
  {
  }

  // ------------------------------------------------------- the file format

  const FILE_HEADER: nat := 52
  const HEADER_SIZE: nat := 32
  const PT_LOAD: nat := 1

  function Half(file: seq<Byte>, off: nat): nat
    requires off + 2 <= |file|
  {
    file[off] as nat + 0x100 * (file[off + 1] as nat)
  }

  function Word(file: seq<Byte>, off: nat): nat
    requires off + 4 <= |file|
  {
    Half(file, off) + 0x1_0000 * Half(file, off + 2)
  }

  predicate Identified(file: seq<Byte>)
    requires FILE_HEADER <= |file|
  {
    && file[0] == 0x7F && file[1] == 0x45 && file[2] == 0x4C && file[3] == 0x46
    && file[4] == 1 && file[5] == 1 && file[6] == 1
  }

  /** The file header that read_elf accepts: a 32-bit little-endian executable for the 80386, of the
      current version, with an entry point and program headers. */
  predicate Accepted(file: seq<Byte>) {
    && FILE_HEADER <= |file| && Identified(file)
    && Half(file, 16) == 2 && Half(file, 18) == 3 && Word(file, 20) == 1
    && Word(file, 24) > 0 && Word(file, 28) > 0
  }

  /** A program header. */
  datatype Header = Header(kind: nat, offset: nat, vaddr: nat, filesz: nat, memsz: nat)

  function HeaderOf(file: seq<Byte>, at: nat): Header
    requires at + HEADER_SIZE <= |file|
  {
    Header(Word(file, at), Word(file, at + 4), Word(file, at + 8), Word(file, at + 16), Word(file, at + 20))
  }

  function HeaderCount(file: seq<Byte>): nat
    requires FILE_HEADER <= |file|
  {
    Half(file, 44)
  }

  function Times(i: nat, n: nat): nat {
    i * n
  }

  function HeaderPlace(file: seq<Byte>, i: nat): nat
    requires FILE_HEADER <= |file|
  {
    Word(file, 28) + Times(i, Half(file, 42))
  }

  function HeaderAt(file: seq<Byte>, i: nat): Header
    requires FILE_HEADER <= |file| && HeaderPlace(file, i) + HEADER_SIZE <= |file|
  {
    HeaderOf(file, HeaderPlace(file, i))
  }

  /** A segment has a page and lies in the address space, and its contents lie in the file and in the
      segment. */
  predicate Sound(file: seq<Byte>, h: Header) {
    1 <= Count(h) && h.vaddr + h.memsz <= 0x1_0000_0000 && h.filesz <= h.memsz && h.offset + h.filesz <= |file|
  }

  /** The first page of a segment. */
  function First(h: Header): nat {
    h.vaddr / PAGE
  }

  /** The number of pages of a segment: those that it touches, and the page of its address when it
      has no memory and begins inside a page. */
  function Count(h: Header): nat {
    (h.vaddr + h.memsz - 1) / PAGE - h.vaddr / PAGE + 1
  }

  lemma CountTouched(h: Header, p: nat)
    requires 1 <= h.memsz
    ensures First(h) <= p < First(h) + Count(h) <==> exists k :: 0 <= k < h.memsz && PageAt(h.vaddr, k) == p
  {
    var v := h.vaddr;
    if First(h) <= p < First(h) + Count(h) {
      var k := if p == First(h) then 0 else p * PAGE - v;
      assert PageAt(v, k) == p;
    }
  }

  function Contents(file: seq<Byte>, h: Header): seq<Byte>
    requires Sound(file, h)
  {
    file[h.offset..h.offset + h.filesz]
  }

  predicate Disjoint(a: nat, n: nat, b: nat, m: nat) {
    a + n <= b || b + m <= a
  }

  predicate Apart(g: Header, r: nat, h: Header, s: nat) {
    Disjoint(First(g), Count(g), First(h), Count(h)) && Disjoint(r, Count(g), s, Count(h))
  }

  /** The program headers lie in the file, one for each run of frames. */
  predicate Headed(file: seq<Byte>, runs: seq<nat>) {
    && FILE_HEADER <= |file| && |runs| == HeaderCount(file)
    && forall i :: 0 <= i < |runs| ==> HeaderPlace(file, i) + HEADER_SIZE <= |file|
  }

  predicate Loads(file: seq<Byte>, i: nat)
    requires FILE_HEADER <= |file| && HeaderPlace(file, i) + HEADER_SIZE <= |file|
  {
    HeaderAt(file, i).kind == PT_LOAD
  }

  /** Sound segments that overlap neither in pages nor in frames. */
  predicate Sane(file: seq<Byte>, runs: seq<nat>, frames: nat) {
    && Headed(file, runs)
    && (forall i :: 0 <= i < |runs| && Loads(file, i) ==>
          Sound(file, HeaderAt(file, i)) && 1 <= runs[i] && runs[i] + Count(HeaderAt(file, i)) <= frames)
    && (forall i, j :: 0 <= i < j < |runs| && Loads(file, i) && Loads(file, j) ==>
          Apart(HeaderAt(file, i), runs[i], HeaderAt(file, j), runs[j]))
  }

  lemma SaneSegment(file: seq<Byte>, runs: seq<nat>, frames: nat, i: nat)
    requires Sane(file, runs, frames) && i < |runs| && Loads(file, i)
    ensures var h := HeaderAt(file, i); Sound(file, h) && 1 <= runs[i] && runs[i] + Count(h) <= frames
  {
  }

  lemma SaneApart(file: seq<Byte>, runs: seq<nat>, frames: nat, i: nat, j: nat)
    requires Sane(file, runs, frames) && i < |runs| && j < |runs| && i != j && Loads(file, i) && Loads(file, j)
    ensures Apart(HeaderAt(file, i), runs[i], HeaderAt(file, j), runs[j])
  {
    hide HeaderAt, First, Count;
  }

  /** Page p belongs to a segment. */
  predicate InSegment(file: seq<Byte>, runs: seq<nat>, p: nat)
    requires Headed(file, runs)
  {
    exists i :: 0 <= i < |runs| && Loads(file, i) &&
        First(HeaderAt(file, i)) <= p < First(HeaderAt(file, i)) + Count(HeaderAt(file, i))
  }

  /** Frame f belongs to the run of a segment. */
  predicate InRun(file: seq<Byte>, runs: seq<nat>, f: nat)
    requires Headed(file, runs)
  {
    exists i :: 0 <= i < |runs| && Loads(file, i) && runs[i] <= f < runs[i] + Count(HeaderAt(file, i))
  }

  /** The bytes of a segment that are not zero by default, once it has been filled. */
  function Wanted(file: seq<Byte>, h: Header, filled: bool): seq<Byte> {
    if filled && Sound(file, h) then Contents(file, h) else []
  }

  lemma SegmentPages(h: Header)
    requires 1 <= Count(h)
    ensures First(h) * PAGE <= h.vaddr && h.vaddr + h.memsz <= (First(h) + Count(h)) * PAGE
  {
  }

  lemma WantedIs(file: seq<Byte>, h: Header)
    requires Sound(file, h)
    ensures Wanted(file, h, false) == [] && Wanted(file, h, true) == Contents(file, h)
  {
  }

  /** The page count as read_elf calculates it, in 32 bits. */
  function Count32(h: Header): nat {
    var start := PageStart(h.vaddr);
    var last := Wrapped(h.vaddr + h.memsz + 0xFFFF_FFFF);
    var end := Wrapped(PageStart(last) + PAGE);
    Wrapped(end - start) / PAGE
  }

  /** a & 0xFFFFF000 */
  function PageStart(a: nat): nat {
    a - a % PAGE
  }

  function Wrapped(n: int): nat {
    n % 0x1_0000_0000
  }

  /** It is the number of pages of the segment modulo 2^20, also when the segment runs past the end of the
      address space. */
  lemma CountExact(h: Header)
    requires h.vaddr < 0x1_0000_0000 && h.memsz < 0x1_0000_0000
    ensures Count32(h) == Count(h) % 0x10_0000
  {
    var last: int := h.vaddr + h.memsz - 1;
    PageStartIs(h.vaddr);
    LastPageEnd(last);
    hide PageStart, Wrapped;
    WrappedPages(last / PAGE + 1);
    WrappedTwice((last / PAGE + 1) * PAGE, h.vaddr / PAGE * PAGE);
    WrappedPages(last / PAGE + 1 - h.vaddr / PAGE);
  }

  lemma SoundCount(file: seq<Byte>, h: Header)
    requires Sound(file, h) && Count(h) < 0x10_0000
    ensures Count32(h) == Count(h)
  {
    hide Count32;
    CountExact(h);
  }

  lemma PageStartIs(a: nat)
    ensures PageStart(a) == a / PAGE * PAGE
  {
  }

  /** The end of the last page, in 32 bits. */
  lemma LastPageEnd(last: int)
    requires -1 <= last < 0x2_0000_0000
    ensures Wrapped(PageStart(Wrapped(last + 0x1_0000_0000)) + PAGE) == Wrapped((last / PAGE + 1) * PAGE)
  {
    var k: int := 1 - (last + 0x1_0000_0000) / 0x1_0000_0000;
    var page := last / PAGE;
    assert Wrapped(last + 0x1_0000_0000) == last + k * 0x1_0000_0000;
    PageShift(last, k);
    PageStartIs(Wrapped(last + 0x1_0000_0000));
    hide PageStart, Wrapped;
    WrappedPages(page + 1);
    WrappedPages(page + k * 0x10_0000 + 1);
    PageWrap(page + 1, k);
  }

  lemma PageShift(a: int, k: int)
    ensures (a + k * 0x1_0000_0000) / PAGE == a / PAGE + k * 0x10_0000
  {
  }

  lemma PageWrap(n: int, k: int)
    ensures (n + k * 0x10_0000) % 0x10_0000 == n % 0x10_0000
  {
  }

  lemma WrappedTwice(a: int, b: int)
    ensures Wrapped(Wrapped(a) - b) == Wrapped(a - b)
  {
  }

  /** Whole pages wrap by the page. */
  lemma WrappedPages(n: int)
    ensures Wrapped(n * PAGE) == n % 0x10_0000 * PAGE && Wrapped(n * PAGE) / PAGE == n % 0x10_0000
  {
    var q, r := n / 0x10_0000, n % 0x10_0000;
    assert n == q * 0x10_0000 + r;
    Remainder(q, r * PAGE);
    WholePages(r);
    hide Wrapped;
  }

  lemma Remainder(q: int, r: nat)
    requires r < 0x1_0000_0000
    ensures Wrapped(q * 0x1_0000_0000 + r) == r
  {
  }

  lemma WholePages(n: nat)
    ensures n * PAGE / PAGE == n
  {
  }

  /** A segment without memory gets a page unless it begins on a page boundary; then the count is 0,
      for which get_free_pages searches for ever. */
  lemma EmptyCountIff(h: Header)
    requires h.memsz == 0 && h.vaddr < 0x1_0000_0000
    ensures Count32(h) == 0 <==> h.vaddr % PAGE == 0
  {
    CountExact(h);
  }
}
