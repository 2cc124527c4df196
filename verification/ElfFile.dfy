/** The layout of an image file, arch/ia32/include/elf32.h, as one that writes such files sees it: the fields of
    its headers one behind the other, each with its least significant byte first. */
module ElfFile {
  import opened Basics
  import Elf

  type Short = n: nat | n < 0x1_0000

  type Long = n: nat | n < 0x1_0000_0000

  /** struct elf32_header */
  datatype FileHeader = FileHeader(ident: seq<Byte>, kind: Short, machine: Short, version: Long, entry: Long,
                                   phoff: Long, shoff: Long, flags: Long, ehsize: Short, phentsize: Short,
                                   phnum: Short, shentsize: Short, shnum: Short, shstrndx: Short)

  /** struct elf32_program_header */
  datatype ProgramHeader = ProgramHeader(kind: Long, offset: Long, vaddr: Long, paddr: Long, filesz: Long,
                                         memsz: Long, flags: Long, align: Long)

  function ShortBytes(n: Short): (s: seq<Byte>)
    ensures |s| == 2
  {
    [n % 0x100, n / 0x100]
  }

  function LongBytes(n: Long): (s: seq<Byte>)
    ensures |s| == 4
  {
    [n % 0x100, n / 0x100 % 0x100, n / 0x1_0000 % 0x100, n / 0x100_0000]
  }

  function FileHeaderBytes(h: FileHeader): seq<Byte> {
    h.ident + ShortBytes(h.kind) + ShortBytes(h.machine) + LongBytes(h.version) + LongBytes(h.entry)
    + LongBytes(h.phoff) + LongBytes(h.shoff) + LongBytes(h.flags) + ShortBytes(h.ehsize) + ShortBytes(h.phentsize)
    + ShortBytes(h.phnum) + ShortBytes(h.shentsize) + ShortBytes(h.shnum) + ShortBytes(h.shstrndx)
  }

  function ProgramHeaderBytes(h: ProgramHeader): seq<Byte> {
    LongBytes(h.kind) + LongBytes(h.offset) + LongBytes(h.vaddr) + LongBytes(h.paddr)
    + LongBytes(h.filesz) + LongBytes(h.memsz) + LongBytes(h.flags) + LongBytes(h.align)
  }

  /** The file begins with the header h. */
  predicate Begins(file: seq<Byte>, h: FileHeader) {
    |h.ident| == 16 && |file| >= 52 && file[..52] == FileHeaderBytes(h)
  }

  /** The program header h lies at `at`. */
  predicate Lies(file: seq<Byte>, at: nat, h: ProgramHeader) {
    at + 32 <= |file| && file[at..at + 32] == ProgramHeaderBytes(h)
  }

  // ------------------------------------------------------------ single fields

  lemma ShortRead(file: seq<Byte>, off: nat, n: Short)
    requires off + 2 <= |file| && file[off] == n % 0x100 && file[off + 1] == n / 0x100
    ensures Elf.Half(file, off) == n
  {
  }

  lemma LongRead(file: seq<Byte>, off: nat, n: Long)
    requires off + 4 <= |file|
    requires file[off] == n % 0x100 && file[off + 1] == n / 0x100 % 0x100
    requires file[off + 2] == n / 0x1_0000 % 0x100 && file[off + 3] == n / 0x100_0000
    ensures Elf.Word(file, off) == n
  {
    var low: Short, high: Short := n % 0x1_0000, n / 0x1_0000;
    LowBytes(n);
    HighByte(n);
    hide Elf.Half;
    ShortRead(file, off, low);
    ShortRead(file, off + 2, high);
  }

  lemma LowBytes(n: Long)
    ensures n % 0x1_0000 % 0x100 == n % 0x100 && n % 0x1_0000 / 0x100 == n / 0x100 % 0x100
  {
    var q, r := n / 0x1_0000, n % 0x1_0000;
    assert n / 0x100 == q * 0x100 + r / 0x100;
    assert n == (q * 0x100 + r / 0x100) * 0x100 + r % 0x100;
  }

  lemma HighByte(n: Long)
    ensures n / 0x1_0000 / 0x100 == n / 0x100_0000
  {
  }

  // ------------------------------------------------------------ whole headers

  lemma FileHeaderFields(h: FileHeader)
    requires |h.ident| == 16
    ensures var s := FileHeaderBytes(h);
            && |s| == 52 && s[..16] == h.ident
            && s[16..18] == ShortBytes(h.kind) && s[18..20] == ShortBytes(h.machine)
            && s[20..24] == LongBytes(h.version) && s[24..28] == LongBytes(h.entry) && s[28..32] == LongBytes(h.phoff)
            && s[42..44] == ShortBytes(h.phentsize) && s[44..46] == ShortBytes(h.phnum)
  {
    hide ShortBytes, LongBytes;
  }

  lemma ProgramHeaderFields(h: ProgramHeader)
    ensures var s := ProgramHeaderBytes(h);
            && |s| == 32
            && s[..4] == LongBytes(h.kind) && s[4..8] == LongBytes(h.offset) && s[8..12] == LongBytes(h.vaddr)
            && s[16..20] == LongBytes(h.filesz) && s[20..24] == LongBytes(h.memsz)
  {
    hide LongBytes;
  }

  lemma ShortThere(file: seq<Byte>, at: nat, o: nat, s: seq<Byte>, n: Short)
    requires at + |s| <= |file| && file[at..at + |s|] == s && o + 2 <= |s| && s[o..o + 2] == ShortBytes(n)
    ensures Elf.Half(file, at + o) == n
  {
    assert s[o..o + 2][0] == file[at + o] && s[o..o + 2][1] == file[at + o + 1];
    ShortRead(file, at + o, n);
  }

  lemma LongThere(file: seq<Byte>, at: nat, o: nat, s: seq<Byte>, n: Long)
    requires at + |s| <= |file| && file[at..at + |s|] == s && o + 4 <= |s| && s[o..o + 4] == LongBytes(n)
    ensures Elf.Word(file, at + o) == n
  {
    assert s[o..o + 4][0] == file[at + o] && s[o..o + 4][1] == file[at + o + 1];
    assert s[o..o + 4][2] == file[at + o + 2] && s[o..o + 4][3] == file[at + o + 3];
    LongRead(file, at + o, n);
  }

  /** read_elf takes a file that begins with header h for an image exactly when the fields are as it demands,
      and finds its entry point and the places of its program headers. */
  lemma FileHeaderRead(file: seq<Byte>, h: FileHeader)
    requires Begins(file, h)
    ensures Elf.Accepted(file) <==>
              && h.ident[..7] == [0x7F, 'E' as Byte, 'L' as Byte, 'F' as Byte, 1, 1, 1]
              && h.kind == 2 && h.machine == 3 && h.version == 1 && h.entry > 0 && h.phoff > 0
    ensures Elf.Word(file, 24) == h.entry && Elf.HeaderCount(file) == h.phnum
    ensures forall i: nat :: Elf.HeaderPlace(file, i) == h.phoff + i * h.phentsize
  {
    var s := FileHeaderBytes(h);
    FileHeaderFields(h);
    hide FileHeaderBytes, ShortBytes, LongBytes, Elf.Half, Elf.Word, Elf.Identified;
    assert file[0..0 + |s|] == s;
    ShortThere(file, 0, 16, s, h.kind);
    ShortThere(file, 0, 18, s, h.machine);
    LongThere(file, 0, 20, s, h.version);
    LongThere(file, 0, 24, s, h.entry);
    LongThere(file, 0, 28, s, h.phoff);
    ShortThere(file, 0, 42, s, h.phentsize);
    ShortThere(file, 0, 44, s, h.phnum);
    IdentRead(file, h.ident);
  }

  lemma IdentRead(file: seq<Byte>, ident: seq<Byte>)
    requires |file| >= 52 && |ident| == 16 && file[..16] == ident
    ensures Elf.Identified(file) <==> ident[..7] == [0x7F, 'E' as Byte, 'L' as Byte, 'F' as Byte, 1, 1, 1]
  {
    assert forall k :: 0 <= k < 16 ==> file[k] == ident[k];
    if ident[..7] == [0x7F, 'E' as Byte, 'L' as Byte, 'F' as Byte, 1, 1, 1] {
      assert forall k :: 0 <= k < 7 ==> ident[..7][k] == ident[k];
    }
  }

  /** Of a program header read_elf sees the fields that the writer has laid down. */
  lemma ProgramHeaderRead(file: seq<Byte>, at: nat, h: ProgramHeader)
    requires Lies(file, at, h)
    ensures Elf.HeaderOf(file, at) == Elf.Header(h.kind, h.offset, h.vaddr, h.filesz, h.memsz)
  {
    var s := ProgramHeaderBytes(h);
    ProgramHeaderFields(h);
    hide ProgramHeaderBytes, LongBytes, Elf.Word;
    LongThere(file, at, 0, s, h.kind);
    LongThere(file, at, 4, s, h.offset);
    LongThere(file, at, 8, s, h.vaddr);
    LongThere(file, at, 16, s, h.filesz);
    LongThere(file, at, 20, s, h.memsz);
  }

  // -------------------------------------------------------- every file is laid so

  lemma ShortsCover(a: Byte, b: Byte) returns (n: Short)
    ensures ShortBytes(n) == [a, b]
  {
    n := a as nat + 0x100 * (b as nat);
  }

  lemma LongsCover(s: seq<Byte>) returns (n: Long)
    requires |s| == 4
    ensures LongBytes(n) == s
  {
    var low: nat, high: nat := s[0] as nat + 0x100 * (s[1] as nat), s[2] as nat + 0x100 * (s[3] as nat);
    n := low + 0x1_0000 * high;
    assert n % 0x1_0000 == low && n / 0x1_0000 == high;
    LowBytes(n);
    HighByte(n);
  }

  lemma Third(file: seq<Byte>, before: seq<Byte>, a: Short, b: Short, c: Short, d: Short, e: Short, f: Short)
    requires |file| >= 52 && file[..40] == before && file[40..42] == ShortBytes(a) && file[42..44] == ShortBytes(b)
    requires file[44..46] == ShortBytes(c) && file[46..48] == ShortBytes(d)
    requires file[48..50] == ShortBytes(e) && file[50..52] == ShortBytes(f)
    ensures file[..52] == before + ShortBytes(a) + ShortBytes(b) + ShortBytes(c) + ShortBytes(d) + ShortBytes(e)
                          + ShortBytes(f)
  {
    hide ShortBytes;
    assert file[..52] == file[..40] + file[40..42] + file[42..44] + file[44..46] + file[46..48] + file[48..50]
                         + file[50..52];
  }

  /** Each file of at least 52 bytes begins with the header of some fields, so the characterisation is of all. */
  lemma EveryFileBegins(file: seq<Byte>) returns (h: FileHeader)
    requires |file| >= 52
    ensures Begins(file, h)
  {
    var kind := ShortsCover(file[16], file[17]);
    var machine := ShortsCover(file[18], file[19]);
    var version := LongsCover(file[20..24]);
    var entry := LongsCover(file[24..28]);
    var phoff := LongsCover(file[28..32]);
    var shoff := LongsCover(file[32..36]);
    var flags := LongsCover(file[36..40]);
    var ehsize := ShortsCover(file[40], file[41]);
    var phentsize := ShortsCover(file[42], file[43]);
    var phnum := ShortsCover(file[44], file[45]);
    var shentsize := ShortsCover(file[46], file[47]);
    var shnum := ShortsCover(file[48], file[49]);
    var shstrndx := ShortsCover(file[50], file[51]);
    h := FileHeader(file[..16], kind, machine, version, entry, phoff, shoff, flags, ehsize, phentsize, phnum,
                    shentsize, shnum, shstrndx);
    hide ShortBytes, LongBytes;
    var first := h.ident + ShortBytes(kind) + ShortBytes(machine) + LongBytes(version);
    assert file[..24] == first;
    var second := first + LongBytes(entry) + LongBytes(phoff) + LongBytes(shoff) + LongBytes(flags);
    assert file[..40] == second by {
      assert file[..40] == file[..24] + file[24..28] + file[28..32] + file[32..36] + file[36..40];
    }
    Third(file, second, ehsize, phentsize, phnum, shentsize, shnum, shstrndx);
  }

  /** Likewise for program headers. */
  lemma EveryHeaderLies(file: seq<Byte>, at: nat) returns (h: ProgramHeader)
    requires at + 32 <= |file|
    ensures Lies(file, at, h)
  {
    var kind := LongsCover(file[at..at + 4]);
    var offset := LongsCover(file[at + 4..at + 8]);
    var vaddr := LongsCover(file[at + 8..at + 12]);
    var paddr := LongsCover(file[at + 12..at + 16]);
    var filesz := LongsCover(file[at + 16..at + 20]);
    var memsz := LongsCover(file[at + 20..at + 24]);
    var flags := LongsCover(file[at + 24..at + 28]);
    var align := LongsCover(file[at + 28..at + 32]);
    h := ProgramHeader(kind, offset, vaddr, paddr, filesz, memsz, flags, align);
    hide LongBytes;
    assert file[at..at + 32] == ProgramHeaderBytes(h);
  }

  // ------------------------------------------------------------- the loaded image

  /** Program header i of a file is found, and taken for a segment exactly when its type is PT_LOAD. */
  lemma HeaderThere(file: seq<Byte>, f: FileHeader, i: nat, at: nat, h: ProgramHeader)
    requires Begins(file, f) && at == f.phoff + i * f.phentsize && Lies(file, at, h)
    ensures Elf.HeaderCount(file) == f.phnum && Elf.HeaderPlace(file, i) == at
    ensures Elf.HeaderAt(file, i) == Elf.Header(h.kind, h.offset, h.vaddr, h.filesz, h.memsz)
    ensures Elf.Loads(file, i) <==> h.kind == 1
  {
    FileHeaderRead(file, f);
    assert Elf.HeaderPlace(file, i) == at;
    ProgramHeaderRead(file, at, h);
    hide Elf.Half, Elf.Word, Elf.Accepted, Elf.HeaderPlace, Elf.HeaderCount, Begins;
  }

  lemma RunCount(file: seq<Byte>, runs: seq<nat>)
    requires Elf.Headed(file, runs)
    ensures |runs| == Elf.HeaderCount(file)
  {
  }

  /** When read_elf has loaded a file, byte k of the memory of a PT_LOAD segment, addressed from p_vaddr, is byte
      p_offset + k of the file below p_filesz, and zero from there to p_memsz. */
  lemma SegmentLoaded(s: Elf.Space, file: seq<Byte>, runs: seq<nat>, f: FileHeader, i: nat,
                      at: nat, h: ProgramHeader, k: nat)
    requires s.Valid() && Elf.Headed(file, runs) && Elf.Sane(file, runs, s.ram.Length0)
    requires s.AllHave(file, runs, 0, |runs|, true)
    requires Begins(file, f) && i < f.phnum && at == f.phoff + i * f.phentsize && Lies(file, at, h)
    requires h.kind == 1 && k < h.memsz
    ensures (h.vaddr + k) / 4096 in s.pages && h.offset + h.filesz <= |file|
    ensures s.At(h.vaddr + k) == if k < h.filesz then file[h.offset + k] else 0
  {
    HeaderThere(file, f, i, at, h);
    RunCount(file, runs);
    hide Elf.Half, Elf.Word, Elf.Accepted, Elf.HeaderPlace, Elf.HeaderCount, Elf.HeaderAt, Begins, Lies, Elf.Sane,
         Elf.Headed, Elf.Loads;
    s.LoadedByte(file, runs, i, k);
  }
}
