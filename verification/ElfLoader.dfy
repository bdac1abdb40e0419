/** The static ELF loader of src/kernel/elf.c on a flat 32-bit memory.  Addresses wrap at 2^32, and the
    file being loaded lies in the same memory as the places it is loaded to. */
module ElfLoader {
  import opened MachineTypes

  const PT_LOAD := 1
  /** sizeof(elf_phdr_t): the stride of the table, whatever e_phentsize says. */
  const PHDR_SIZE := 32

  /** sizeof(elf_header_t) */
  const HEADER_SIZE := 52

  type Memory = m: seq<Octet> | |m| == TWO_TO_32 witness seq(TWO_TO_32, _ => 0)

  function Wrap(a: nat): nat {
    a % TWO_TO_32
  }

  function At(m: Memory, a: nat): Octet {
    m[Wrap(a)]
  }

  function Half(m: Memory, a: nat): nat {
    At(m, a) as nat + 0x100 * At(m, a + 1) as nat
  }

  function Full(m: Memory, a: nat): nat {
    Half(m, a) + 0x10000 * Half(m, a + 2)
  }

  // ---------- The file header and a program header, as the loader reads them ----------

  predicate IsElf(m: Memory, elf: nat) {
    At(m, elf) == 0x7F && At(m, elf + 1) == 0x45 && At(m, elf + 2) == 0x4C && At(m, elf + 3) == 0x46
  }

  /** ET_EXEC for ARM. */
  predicate IsArmExecutable(m: Memory, elf: nat) {
    Half(m, elf + 16) == 2 && Half(m, elf + 18) == 0x28
  }

  function Entry(m: Memory, elf: nat): nat { Full(m, elf + 24) }

  function PhOff(m: Memory, elf: nat): nat { Full(m, elf + 28) }

  function PhNum(m: Memory, elf: nat): (n: nat)
    ensures n < 0x10000
  {
    Half(m, elf + 44)
  }

  datatype Phdr = Phdr(kind: nat, offset: nat, vaddr: nat, filesz: nat, memsz: nat)

  function PhdrAt(m: Memory, table: nat, i: nat): Phdr {
    var p := table + PHDR_SIZE * i;
    Phdr(Full(m, p), Full(m, p + 4), Full(m, p + 8), Full(m, p + 16), Full(m, p + 20))
  }

  /** Program header `i` of the file at `elf`. */
  function Segment(m: Memory, elf: nat, i: nat): Phdr {
    PhdrAt(m, elf + PhOff(m, elf), i)
  }

  // ---------- The byte loops ----------

  /** memcpy: ascending, one byte at a time. */
  function Copied(m: Memory, dst: nat, src: nat, n: nat): Memory
    decreases n
  {
    if n == 0 then m else Copied(m[Wrap(dst) := At(m, src)], dst + 1, src + 1, n - 1)
  }

  /** memset */
  function Filled(m: Memory, dst: nat, c: Octet, n: nat): Memory
    decreases n
  {
    if n == 0 then m else Filled(m[Wrap(dst) := c], dst + 1, c, n - 1)
  }

  /** What one turn of the loop over the program headers does.  The sizes are read again after the copy,
      from memory that the copy may have changed. */
  function Loaded(m: Memory, elf: nat, table: nat, i: nat): Memory {
    var p := PhdrAt(m, table, i);
    if p.kind != PT_LOAD then m
    else
      var c := Copied(m, p.vaddr, elf + p.offset, p.filesz);
      var q := PhdrAt(c, table, i);
      if q.memsz > q.filesz then Filled(c, p.vaddr + q.filesz, 0, q.memsz - q.filesz) else c
  }

  /** The loop over the program headers from the i-th on.  Their number is read again before every turn. */
  function LoadLoop(m: Memory, elf: nat, table: nat, i: nat): Memory
    requires i < 0x10000
    decreases 0x10000 - i
  {
    if i < PhNum(m, elf) then LoadLoop(Loaded(m, elf, table, i), elf, table, i + 1) else m
  }

  /** The in-order fold over the first `n` program headers. */
  function LoadedUpTo(m: Memory, elf: nat, table: nat, n: nat): Memory {
    if n == 0 then m else Loaded(LoadedUpTo(m, elf, table, n - 1), elf, table, n - 1)
  }

  // ---------- The image a load produces ----------

  /** How much memory a segment takes up. */
  function Extent(p: Phdr): nat {
    if p.memsz > p.filesz then p.memsz else p.filesz
  }

  predicate Covers(p: Phdr, a: nat) {
    p.kind == PT_LOAD && p.vaddr <= a < p.vaddr + Extent(p)
  }

  /** The byte a load must leave at `a`, given the first `n` program headers: the last segment covering
      `a` decides, with its file byte or, past its file size, zero; uncovered bytes keep their value. */
  function Placed(m: Memory, elf: nat, n: nat, a: nat): Octet
    requires a < TWO_TO_32
  {
    if n == 0 then m[a]
    else
      var p := Segment(m, elf, n - 1);
      if Covers(p, a) then
        if a < p.vaddr + p.filesz then At(m, elf + p.offset + (a - p.vaddr)) else 0
      else Placed(m, elf, n - 1, a)
  }

  /** One segment's file bytes lie in the file and its memory is off the end of neither memory nor
      onto the file. */
  predicate SegmentFits(p: Phdr, elf: nat, size: nat) {
    p.kind == PT_LOAD ==>
      && p.offset + p.filesz <= size
      && p.vaddr + Extent(p) <= TWO_TO_32
      && (p.vaddr + Extent(p) <= elf || elf + size <= p.vaddr)
  }

  /** The file is `size` bytes at `elf`, holds its own headers, and no segment lands on it. */
  predicate WellPlaced(m: Memory, elf: nat, size: nat) {
    && HEADER_SIZE <= size && elf + size <= TWO_TO_32
    && PhOff(m, elf) + PHDR_SIZE * PhNum(m, elf) <= size
    && forall i :: 0 <= i < PhNum(m, elf) ==> SegmentFits(Segment(m, elf, i), elf, size)
  }

  predicate SameBytes(m: Memory, m': Memory, from: nat, to: nat) {
    forall a :: from <= a < to <= TWO_TO_32 ==> m[a] == m'[a]
  }

  lemma CopiedStep(m: Memory, dst: nat, src: nat, n: nat)
    requires n > 0 && dst < TWO_TO_32 && src < TWO_TO_32
    ensures Copied(m, dst, src, n) == Copied(m[dst := m[src]], dst + 1, src + 1, n - 1)
  {}

  lemma {:induction false} CopiedAt(m: Memory, dst: nat, src: nat, n: nat, a: nat)
    requires dst + n <= TWO_TO_32 && src + n <= TWO_TO_32 && a < TWO_TO_32
    requires dst + n <= src || src + n <= dst
    ensures Copied(m, dst, src, n)[a] == if dst <= a < dst + n then m[src + (a - dst)] else m[a]
    decreases n
  {
    if n > 0 {
      hide Wrap, At, Copied;
      CopiedStep(m, dst, src, n);
      CopiedAt(m[dst := m[src]], dst + 1, src + 1, n - 1, a);
    }
  }

  lemma {:induction false} FilledAt(m: Memory, dst: nat, c: Octet, n: nat, a: nat)
    requires dst + n <= TWO_TO_32 && a < TWO_TO_32
    ensures Filled(m, dst, c, n)[a] == if dst <= a < dst + n then c else m[a]
    decreases n
  {
    if n > 0 {
      FilledAt(m[dst := c], dst + 1, c, n - 1, a);
    }
  }

  lemma SamePhdr(m: Memory, m': Memory, table: nat, i: nat, elf: nat, size: nat)
    requires elf + size <= TWO_TO_32 && SameBytes(m, m', elf, elf + size)
    requires elf <= table && table + PHDR_SIZE * (i + 1) <= elf + size
    ensures PhdrAt(m, table, i) == PhdrAt(m', table, i)
  {
    hide Full;
    var p := table + PHDR_SIZE * i;
    SameFull(m, m', p, elf, elf + size);
    SameFull(m, m', p + 4, elf, elf + size);
    SameFull(m, m', p + 8, elf, elf + size);
    SameFull(m, m', p + 16, elf, elf + size);
    SameFull(m, m', p + 20, elf, elf + size);
  }

  lemma SameFull(m: Memory, m': Memory, a: nat, from: nat, to: nat)
    requires SameBytes(m, m', from, to) && from <= a && a + 4 <= to <= TWO_TO_32
    ensures Full(m, a) == Full(m', a)
  {
    hide SameBytes;
    SameAt(m, m', a, from, to);
    SameAt(m, m', a + 1, from, to);
    SameAt(m, m', a + 2, from, to);
    SameAt(m, m', a + 3, from, to);
  }

  lemma SameAt(m: Memory, m': Memory, a: nat, from: nat, to: nat)
    requires SameBytes(m, m', from, to) && from <= a < to <= TWO_TO_32
    ensures At(m, a) == At(m', a)
  {}

  /** One segment of a well-placed file, loaded. */
  lemma LoadedAt(m: Memory, elf: nat, size: nat, table: nat, i: nat, a: nat)
    requires elf + size <= TWO_TO_32 && a < TWO_TO_32
    requires elf <= table && table + PHDR_SIZE * (i + 1) <= elf + size
    requires SegmentFits(PhdrAt(m, table, i), elf, size)
    ensures
      var p := PhdrAt(m, table, i);
      Loaded(m, elf, table, i)[a] ==
        if Covers(p, a) then
          if a < p.vaddr + p.filesz then m[elf + p.offset + (a - p.vaddr)] else 0
        else m[a]
  {
    hide PhdrAt, Copied, Filled;
    var p := PhdrAt(m, table, i);
    if p.kind == PT_LOAD {
      var c := Copied(m, p.vaddr, elf + p.offset, p.filesz);
      forall b | elf <= b < elf + size ensures c[b] == m[b] {
        CopiedAt(m, p.vaddr, elf + p.offset, p.filesz, b);
      }
      SamePhdr(m, c, table, i, elf, size);
      CopiedAt(m, p.vaddr, elf + p.offset, p.filesz, a);
      if p.memsz > p.filesz {
        FilledAt(c, p.vaddr + p.filesz, 0, p.memsz - p.filesz, a);
      }
    }
  }

  /** For every well-placed file, overlapping segments included, the fold over the program headers
      leaves exactly the specified image. */
  lemma {:induction false} LoadIsImage(m: Memory, elf: nat, size: nat, n: nat, a: nat)
    requires WellPlaced(m, elf, size) && n <= PhNum(m, elf) && a < TWO_TO_32
    ensures
      var table := elf + PhOff(m, elf);
      LoadedUpTo(m, elf, table, n)[a] == Placed(m, elf, n, a)
    ensures elf <= a < elf + size ==> LoadedUpTo(m, elf, elf + PhOff(m, elf), n)[a] == m[a]
  {
    hide PhdrAt, Loaded, PhOff, PhNum;
    var table := elf + PhOff(m, elf);
    if n > 0 {
      assert SegmentFits(Segment(m, elf, n - 1), elf, size);
      var before := LoadedUpTo(m, elf, table, n - 1);
      forall b | elf <= b < elf + size ensures before[b] == m[b] {
        LoadIsImage(m, elf, size, n - 1, b);
      }
      SamePhdr(m, before, table, n - 1, elf, size);
      LoadedAt(before, elf, size, table, n - 1, a);
      LoadIsImage(m, elf, size, n - 1, a);
    }
  }

  lemma SamePhNum(m: Memory, m': Memory, elf: nat, size: nat)
    requires HEADER_SIZE <= size && elf + size <= TWO_TO_32 && SameBytes(m, m', elf, elf + size)
    ensures PhNum(m, elf) == PhNum(m', elf)
  {
    assert At(m, elf + 44) == At(m', elf + 44) && At(m, elf + 45) == At(m', elf + 45);
  }

  /** On a well-placed file, re-reading the header makes no difference: the loop is the fold. */
  lemma {:induction false} LoopIsFold(m: Memory, elf: nat, size: nat, i: nat)
    requires WellPlaced(m, elf, size) && i <= PhNum(m, elf)
    ensures
      var table := elf + PhOff(m, elf);
      LoadLoop(LoadedUpTo(m, elf, table, i), elf, table, i) == LoadedUpTo(m, elf, table, PhNum(m, elf))
    decreases PhNum(m, elf) - i
  {
    hide PhdrAt, Loaded, PhOff, PhNum;
    var so := LoadedUpTo(m, elf, elf + PhOff(m, elf), i);
    forall b | elf <= b < elf + size ensures m[b] == so[b] {
      LoadIsImage(m, elf, size, i, b);
    }
    SamePhNum(m, so, elf, size);
    if i < PhNum(m, elf) {
      LoopIsFold(m, elf, size, i + 1);
    }
  }

  /** What elf_load promises: after a successful load of a well-placed file, every byte of memory is the
      one the segments specify, the last one covering it deciding. */
  lemma LoadResult(m: Memory, elf: nat, size: nat, a: nat)
    requires WellPlaced(m, elf, size) && a < TWO_TO_32
    ensures
      var table := elf + PhOff(m, elf);
      LoadLoop(m, elf, table, 0)[a] == Placed(m, elf, PhNum(m, elf), a)
  {
    LoopIsFold(m, elf, size, 0);
    LoadIsImage(m, elf, size, PhNum(m, elf), a);
  }

  /** Pairwise disjoint segments: each ends up with its file bytes followed by zeros, and every byte
      outside all of them is untouched. */
  lemma DisjointImage(m: Memory, elf: nat, size: nat, i: nat, a: nat)
    requires WellPlaced(m, elf, size) && i < PhNum(m, elf) && a < TWO_TO_32
    requires forall j, k :: 0 <= j < k < PhNum(m, elf) ==>
      !(Covers(Segment(m, elf, j), a) && Covers(Segment(m, elf, k), a))
    ensures
      var p := Segment(m, elf, i);
      var r := LoadLoop(m, elf, elf + PhOff(m, elf), 0);
      && (p.kind == PT_LOAD && p.vaddr <= a < p.vaddr + p.filesz ==> r[a] == m[elf + p.offset + (a - p.vaddr)])
      && (p.kind == PT_LOAD && p.vaddr + p.filesz <= a < p.vaddr + p.memsz ==> r[a] == 0)
      && ((forall j :: 0 <= j < PhNum(m, elf) ==> !Covers(Segment(m, elf, j), a)) ==> r[a] == m[a])
  {
    hide Segment, PhOff, PhNum, LoadLoop;
    LoadResult(m, elf, size, a);
    OnlyCover(m, elf, PhNum(m, elf), i, a);
  }

  lemma {:induction false} OnlyCover(m: Memory, elf: nat, n: nat, i: nat, a: nat)
    requires i < n && a < TWO_TO_32
    requires forall j, k :: 0 <= j < k < n ==> !(Covers(Segment(m, elf, j), a) && Covers(Segment(m, elf, k), a))
    ensures
      var p := Segment(m, elf, i);
      Covers(p, a) ==>
        Placed(m, elf, n, a) == if a < p.vaddr + p.filesz then At(m, elf + p.offset + (a - p.vaddr)) else 0
    ensures (forall j :: 0 <= j < n ==> !Covers(Segment(m, elf, j), a)) ==> Placed(m, elf, n, a) == m[a]
  {
    hide Segment, Covers, At;
    if i < n - 1 {
      OnlyCover(m, elf, n - 1, i, a);
    } else if n > 1 {
      OnlyCover(m, elf, n - 1, 0, a);
    }
  }

  // ---------- The stride of the program header table ----------

  /** e_phentsize: the size of a program header according to the file. */
  function PhEntSize(m: Memory, elf: nat): nat { Half(m, elf + 42) }

  function Product(x: nat, y: nat): nat { x * y }

  /** Where the file says its i-th program header is. */
  function GivenAt(m: Memory, elf: nat, i: nat): nat {
    elf + PhOff(m, elf) + Product(PhEntSize(m, elf), i)
  }

  /** Where the loader reads it. */
  function ReadAt(m: Memory, elf: nat, i: nat): nat {
    elf + PhOff(m, elf) + PHDR_SIZE * i
  }

  lemma SegmentIsReadAt(m: Memory, elf: nat, i: nat)
    ensures Segment(m, elf, i) == PhdrAt(m, ReadAt(m, elf, i), 0)
  {}

  /** The loader reads every program header from where the file says it is exactly when the file's headers
      are 32 bytes apart or there is at most one. */
  lemma HeadersReadIff(m: Memory, elf: nat)
    ensures forall i: nat :: Segment(m, elf, i) == PhdrAt(m, ReadAt(m, elf, i), 0)
    ensures (forall i :: 0 <= i < PhNum(m, elf) ==> Wrap(ReadAt(m, elf, i)) == Wrap(GivenAt(m, elf, i))) <==>
            PhEntSize(m, elf) == PHDR_SIZE || PhNum(m, elf) <= 1
  {
    hide PhOff, PhNum, PhEntSize, Wrap, PhdrAt, Segment, ReadAt;
    forall i: nat ensures Segment(m, elf, i) == PhdrAt(m, ReadAt(m, elf, i), 0) {
      SegmentIsReadAt(m, elf, i);
    }
    StridesIff(m, elf);
  }

  lemma StridesIff(m: Memory, elf: nat)
    ensures (forall i :: 0 <= i < PhNum(m, elf) ==> Wrap(ReadAt(m, elf, i)) == Wrap(GivenAt(m, elf, i))) <==>
            PhEntSize(m, elf) == PHDR_SIZE || PhNum(m, elf) <= 1
  {
    hide PhOff, PhNum, PhEntSize, Wrap;
    if PhNum(m, elf) > 1 && PhEntSize(m, elf) != PHDR_SIZE {
      assert ReadAt(m, elf, 1) == elf + PhOff(m, elf) + PHDR_SIZE;
      assert GivenAt(m, elf, 1) == elf + PhOff(m, elf) + PhEntSize(m, elf);
      SmallPhEntSize(m, elf);
      WrapDiffers(elf + PhOff(m, elf), PHDR_SIZE, PhEntSize(m, elf));
    }
  }

  lemma SmallPhEntSize(m: Memory, elf: nat)
    ensures PhEntSize(m, elf) < 0x10000
  {}

  lemma WrapDiffers(base: nat, i: nat, j: nat)
    requires i < TWO_TO_32 && j < TWO_TO_32 && i != j
    ensures Wrap(base + i) != Wrap(base + j)
  {
    var p, q := (base + i) / TWO_TO_32, (base + j) / TWO_TO_32;
    assert base + i == TWO_TO_32 * p + Wrap(base + i) && base + j == TWO_TO_32 * q + Wrap(base + j);
  }

  // ---------- The layout of the headers ----------

  /** The memory holds these bytes at this address. */
  predicate HoldsAt(m: Memory, at: nat, b: seq<Octet>) {
    forall k :: 0 <= k < |b| ==> At(m, at + k) == b[k]
  }

  lemma HalfReadsBack(m: Memory, at: nat, n: nat)
    requires n < 0x10000 && HoldsAt(m, at, LittleEndian(n, 2))
    ensures Half(m, at) == n
  {
    hide LittleEndian, At;
    var b := LittleEndian(n, 2);
    LittleEndianSplits(n, 2);
    LittleEndianSplits(n / 0x100, 1);
    assert At(m, at + 0) == b[0] && At(m, at + 1) == b[1] == b[1..][0];
  }

  lemma FullReadsBack(m: Memory, at: nat, n: nat)
    requires n < TWO_TO_32 && HoldsAt(m, at, LittleEndian(n, 4))
    ensures Full(m, at) == n
  {
    hide LittleEndian, Half, At;
    var b := LittleEndian(n, 4);
    LittleEndianSplits(n, 4);
    LittleEndianSplits(n / 0x100, 3);
    assert n / 0x100 / 0x100 == n / 0x10000;
    var high := LittleEndian(n / 0x10000, 2);
    assert b[1..][1..] == high;
    forall k | 0 <= k < 2 ensures At(m, at + 2 + k) == high[k] {
      assert At(m, at + (2 + k)) == b[2 + k] == b[1..][1..][k];
    }
    HalfReadsBack(m, at + 2, n / 0x10000);
    LowHalf(m, at, n, b);
    assert n == n % 0x10000 + 0x10000 * (n / 0x10000);
  }

  lemma LowHalf(m: Memory, at: nat, n: nat, b: seq<Octet>)
    requires b == LittleEndian(n, 4) && HoldsAt(m, at, b)
    ensures Half(m, at) == n % 0x10000
  {
    hide LittleEndian, At;
    LittleEndianSplits(n, 4);
    LittleEndianSplits(n / 0x100, 3);
    assert At(m, at + 0) == b[0] && At(m, at + 1) == b[1] == b[1..][0];
    assert n % 0x10000 == n % 0x100 + 0x100 * (n / 0x100 % 0x100);
  }

  /** The fields of an ELF file header (chapter 4 of the System V gABI), in the order of the file. */
  datatype FileHeader = FileHeader(
    ident: seq<Octet>, kind: nat, machine: nat, version: nat, entry: nat, phoff: nat, shoff: nat, flags: nat,
    ehsize: nat, phentsize: nat, phnum: nat)

  predicate Encodable(h: FileHeader) {
    && |h.ident| == 16 && h.kind < 0x10000 && h.machine < 0x10000 && h.version < TWO_TO_32
    && h.entry < TWO_TO_32 && h.phoff < TWO_TO_32 && h.shoff < TWO_TO_32 && h.flags < TWO_TO_32
    && h.ehsize < 0x10000 && h.phentsize < 0x10000 && h.phnum < 0x10000
  }

  /** The header is in memory at `elf`, each field behind the one before. */
  predicate FileHeaderAt(m: Memory, elf: nat, h: FileHeader) {
    && HoldsAt(m, elf, h.ident)
    && HoldsAt(m, elf + 16, LittleEndian(h.kind, 2)) && HoldsAt(m, elf + 18, LittleEndian(h.machine, 2))
    && HoldsAt(m, elf + 20, LittleEndian(h.version, 4)) && HoldsAt(m, elf + 24, LittleEndian(h.entry, 4))
    && HoldsAt(m, elf + 28, LittleEndian(h.phoff, 4)) && HoldsAt(m, elf + 32, LittleEndian(h.shoff, 4))
    && HoldsAt(m, elf + 36, LittleEndian(h.flags, 4)) && HoldsAt(m, elf + 40, LittleEndian(h.ehsize, 2))
    && HoldsAt(m, elf + 42, LittleEndian(h.phentsize, 2)) && HoldsAt(m, elf + 44, LittleEndian(h.phnum, 2))
  }

  /** The loader reads back the fields of any header, and accepts the file exactly if it begins with the ELF
      magic and is an executable (2) for ARM (40). */
  lemma FileHeaderReadsBack(m: Memory, elf: nat, h: FileHeader)
    requires Encodable(h) && FileHeaderAt(m, elf, h)
    ensures IsElf(m, elf) && IsArmExecutable(m, elf) <==>
            h.ident[..4] == [0x7F, 'E' as Octet, 'L' as Octet, 'F' as Octet] && h.kind == 2 && h.machine == 40
    ensures Entry(m, elf) == h.entry && PhOff(m, elf) == h.phoff
    ensures PhNum(m, elf) == h.phnum && PhEntSize(m, elf) == h.phentsize
  {
    hide LittleEndian, Full, Half, At;
    HalfReadsBack(m, elf + 16, h.kind);
    HalfReadsBack(m, elf + 18, h.machine);
    FullReadsBack(m, elf + 24, h.entry);
    FullReadsBack(m, elf + 28, h.phoff);
    HalfReadsBack(m, elf + 42, h.phentsize);
    HalfReadsBack(m, elf + 44, h.phnum);
    assert At(m, elf + 0) == h.ident[0] && At(m, elf + 1) == h.ident[1];
    assert At(m, elf + 2) == h.ident[2] && At(m, elf + 3) == h.ident[3];
  }

  /** A program header (chapter 5 of the System V gABI) is in memory at `p`: type, offset, virtual address,
      physical address, size in the file and size in memory, and then flags and alignment. */
  predicate ProgramHeaderAt(m: Memory, p: nat, h: Phdr, paddr: nat) {
    && HoldsAt(m, p, LittleEndian(h.kind, 4)) && HoldsAt(m, p + 4, LittleEndian(h.offset, 4))
    && HoldsAt(m, p + 8, LittleEndian(h.vaddr, 4)) && HoldsAt(m, p + 12, LittleEndian(paddr, 4))
    && HoldsAt(m, p + 16, LittleEndian(h.filesz, 4)) && HoldsAt(m, p + 20, LittleEndian(h.memsz, 4))
  }

  /** The loader reads back any program header. */
  lemma ProgramHeaderReadsBack(m: Memory, p: nat, h: Phdr, paddr: nat)
    requires h.kind < TWO_TO_32 && h.offset < TWO_TO_32 && h.vaddr < TWO_TO_32
    requires h.filesz < TWO_TO_32 && h.memsz < TWO_TO_32 && ProgramHeaderAt(m, p, h, paddr)
    ensures PhdrAt(m, p, 0) == h
  {
    hide LittleEndian, Full, Half, At, HoldsAt;
    FullReadsBack(m, p, h.kind);
    FullReadsBack(m, p + 4, h.offset);
    FullReadsBack(m, p + 8, h.vaddr);
    FullReadsBack(m, p + 16, h.filesz);
    FullReadsBack(m, p + 20, h.memsz);
  }

  /** A file at address 0 with two program headers 40 bytes apart.  The second, at 92, asks for four zero
      bytes at 0x1000. */
  function WideHeaderByte(a: nat): Octet {
    match a
    case 0 => 0x7F
    case 1 => 0x45
    case 2 => 0x4C
    case 3 => 0x46
    case 16 => 2
    case 18 => 0x28
    case 28 => 52
    case 42 => 40
    case 44 => 2
    case 92 => 1
    case 101 => 0x10
    case 112 => 4
    case 0x1000 => 0xFF
    case _ => 0
  }

  function WideHeaders(): Memory {
    seq(TWO_TO_32, a requires 0 <= a < TWO_TO_32 => WideHeaderByte(a))
  }

  lemma WideAt(a: nat)
    requires a < TWO_TO_32
    ensures At(WideHeaders(), a) == WideHeaderByte(a) == WideHeaders()[a]
  {
    hide WideHeaderByte;
  }

  lemma WideFull(a: nat)
    requires a + 4 <= TWO_TO_32
    ensures Full(WideHeaders(), a) ==
            WideHeaderByte(a) as nat + 0x100 * WideHeaderByte(a + 1) as nat +
            0x10000 * WideHeaderByte(a + 2) as nat + 0x1000000 * WideHeaderByte(a + 3) as nat
    ensures Half(WideHeaders(), a) == WideHeaderByte(a) as nat + 0x100 * WideHeaderByte(a + 1) as nat
    ensures At(WideHeaders(), a) == WideHeaderByte(a) == WideHeaders()[a]
  {
    hide WideHeaderByte, WideHeaders, At;
    WideAt(a);
    WideAt(a + 1);
    WideAt(a + 2);
    WideAt(a + 3);
    assert a + 2 + 1 == a + 3;
  }

  lemma WideFileHeader()
    ensures
      var m := WideHeaders();
      && IsElf(m, 0) && IsArmExecutable(m, 0) && PhNum(m, 0) == 2 && PhEntSize(m, 0) == 40 && PhOff(m, 0) == 52
      && m[0x1000] == 0xFF
  {
    hide WideHeaders, Half, Full, At;
    WideFull(0);
    WideFull(1);
    WideFull(2);
    WideFull(3);
    WideFull(16);
    WideFull(18);
    WideFull(28);
    WideFull(42);
    WideFull(44);
    WideFull(0x1000);
  }

  lemma WideProgramHeaders()
    ensures
      var m := WideHeaders();
      && PhdrAt(m, 52, 0).kind == 0 && PhdrAt(m, 52, 1).kind == 0
      && PhdrAt(m, 92, 0) == Phdr(PT_LOAD, 0, 0x1000, 0, 4)
  {
    hide WideHeaders, Half, Full, At;
    WideFull(52);
    WideFull(84);
    WideFull(92);
    WideFull(96);
    WideFull(100);
    WideFull(108);
    WideFull(112);
  }

  /** The file is accepted, the segment it gives covers 0x1000, and the load leaves that byte as it was. */
  lemma WideHeadersMissed()
    ensures
      var m := WideHeaders();
      && IsElf(m, 0) && IsArmExecutable(m, 0) && PhNum(m, 0) == 2 && PhEntSize(m, 0) == 40
      && PhdrAt(m, GivenAt(m, 0, 1), 0) == Phdr(PT_LOAD, 0, 0x1000, 0, 4)
      && LoadLoop(m, 0, PhOff(m, 0), 0) == m && m[0x1000] == 0xFF
  {
    hide WideHeaders, PhdrAt, PhNum, PhOff, PhEntSize, IsElf, IsArmExecutable, Copied, Filled;
    var m := WideHeaders();
    WideFileHeader();
    WideProgramHeaders();
    assert GivenAt(m, 0, 1) == 92;
    assert Loaded(m, 0, 52, 0) == m && Loaded(m, 0, 52, 1) == m;
    assert LoadLoop(m, 0, 52, 2) == m && LoadLoop(m, 0, 52, 1) == m;
  }

  class Machine {
    const mem: array<Octet>

    constructor ()
      ensures mem.Length == TWO_TO_32
    {
      mem := new Octet[TWO_TO_32](_ => 0);
    }

    method Memcpy(dst: nat, src: nat, n: nat)
      requires mem.Length == TWO_TO_32
      modifies mem
      ensures mem[..] == Copied(old(mem[..]), dst, src, n)
    {
      var d, s, left := dst, src, n;
      while left > 0
        invariant 0 <= left <= n
        invariant Copied(old(mem[..]), dst, src, n) == Copied(mem[..], d, s, left)
      {
        ghost var m := mem[..];
        mem[Wrap(d)] := mem[Wrap(s)];
        assert mem[..] == m[Wrap(d) := At(m, s)];
        d, s, left := d + 1, s + 1, left - 1;
      }
    }

    method Memset(dst: nat, c: Octet, n: nat)
      requires mem.Length == TWO_TO_32
      modifies mem
      ensures mem[..] == Filled(old(mem[..]), dst, c, n)
    {
      var d, left := dst, n;
      while left > 0
        invariant 0 <= left <= n
        invariant Filled(old(mem[..]), dst, c, n) == Filled(mem[..], d, c, left)
      {
        ghost var m := mem[..];
        mem[Wrap(d)] := c;
        assert mem[..] == m[Wrap(d) := c];
        d, left := d + 1, left - 1;
      }
    }

    /** elf_load.  A file that is not an ARM executable is refused and changes nothing. */
    method Load(elf: nat) returns (ok: bool, entry: nat)
      requires mem.Length == TWO_TO_32
      modifies mem
      ensures ok <==> IsElf(old(mem[..]), elf) && IsArmExecutable(old(mem[..]), elf)
      ensures ok ==> entry == Entry(old(mem[..]), elf)
      ensures ok ==> mem[..] == LoadLoop(old(mem[..]), elf, elf + PhOff(old(mem[..]), elf), 0)
      ensures !ok ==> mem[..] == old(mem[..])
    {
      hide PhdrAt, IsElf, IsArmExecutable, Entry, PhOff, PhNum, Copied, Filled;
      entry := 0;
      ok := IsElf(mem[..], elf);
      if !ok { return; }
      ok := IsArmExecutable(mem[..], elf);
      if !ok { return; }
      entry := Entry(mem[..], elf);
      var table := elf + PhOff(mem[..], elf);
      var i := 0;
      while i < PhNum(mem[..], elf)
        invariant i < 0x10000
        invariant LoadLoop(old(mem[..]), elf, table, 0) == LoadLoop(mem[..], elf, table, i)
        decreases 0x10000 - i
      {
        var p := PhdrAt(mem[..], table, i);
        if p.kind == PT_LOAD {
          Memcpy(p.vaddr, elf + p.offset, p.filesz);
          var q := PhdrAt(mem[..], table, i);
          if q.memsz > q.filesz {
            Memset(p.vaddr + q.filesz, 0, q.memsz - q.filesz);
          }
        }
        i := i + 1;
      }
    }
  }
}
