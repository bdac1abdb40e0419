/** The RP2040 serial flash driver and its boot image check (arch/rp2040/flash_qspi.c).  The device
    is its contents: erasing sets a sector to ones, programming can only clear bits, and a program
    command that runs off the end of its 256-byte page wraps to the start of that page. */
module FlashQspi {
  import opened MachineTypes
  import opened Crc32

  const PAGE_SIZE := 256
  const SECTOR_SIZE := 4096

  // ---------- What the commands do to the contents ----------

  predicate SamePage(addr: nat, i: nat) {
    i / PAGE_SIZE == addr / PAGE_SIZE
  }

  /** How many bytes of a program command at `addr` arrive before cell `i` of its page is next. */
  function Arrival(addr: nat, i: nat): nat {
    (i - addr) % PAGE_SIZE
  }

  /** The cell that takes byte `k` of a program command at `addr`. */
  function Target(addr: nat, k: nat): nat {
    addr - addr % PAGE_SIZE + (addr + k) % PAGE_SIZE
  }

  /** Programming can only clear bits. */
  function Clear(cell: Byte, data: Byte): Byte {
    cell & data
  }

  /** `data` programmed into the page of `addr`, the address counter wrapping inside the page. */
  function PageProgrammed(mem: seq<Byte>, addr: nat, data: seq<Byte>): (r: seq<Byte>)
    requires |data| <= PAGE_SIZE
    ensures |r| == |mem|
  {
    seq(|mem|, i requires 0 <= i < |mem| =>
      if SamePage(addr, i) && Arrival(addr, i) < |data| then Clear(mem[i], data[Arrival(addr, i)]) else mem[i])
  }

  /** The contents with the sector of `addr` erased. */
  function SectorErased(mem: seq<Byte>, addr: nat): (r: seq<Byte>)
    ensures |r| == |mem|
  {
    seq(|mem|, i requires 0 <= i < |mem| =>
      if i / SECTOR_SIZE == addr / SECTOR_SIZE then 0xFF else mem[i])
  }

  /** What a caller of flash_write wants: the data on the bytes from `addr`, limited by what is
      there, and nothing else touched. */
  function Programmed(mem: seq<Byte>, addr: nat, data: seq<Byte>): (r: seq<Byte>)
    requires addr + |data| <= |mem|
    ensures |r| == |mem|
  {
    seq(|mem|, i requires 0 <= i < |mem| =>
      if addr <= i < addr + |data| then Clear(mem[i], data[i - addr]) else mem[i])
  }

  lemma NoWrap(mem: seq<Byte>, addr: nat, data: seq<Byte>)
    requires |data| <= PAGE_SIZE - addr % PAGE_SIZE && addr + |data| <= |mem|
    ensures PageProgrammed(mem, addr, data) == Programmed(mem, addr, data)
  {
    hide SamePage, Arrival, Clear;
    forall i | 0 <= i < |mem|
      ensures PageProgrammed(mem, addr, data)[i] == Programmed(mem, addr, data)[i]
    {
      PageOffset(addr, i, |data|);
    }
  }

  /** Inside one page, counting from `addr` without reaching the end is plain subtraction. */
  lemma PageOffset(addr: nat, i: nat, n: nat)
    requires n <= PAGE_SIZE - addr % PAGE_SIZE
    ensures SamePage(addr, i) && Arrival(addr, i) < n <==> addr <= i < addr + n
    ensures addr <= i < addr + n ==> Arrival(addr, i) == i - addr
  {
    if i / PAGE_SIZE == addr / PAGE_SIZE {
      if i < addr {
        assert (i - addr) % PAGE_SIZE == i - addr + PAGE_SIZE;
      }
    }
  }

  lemma ProgrammedInSteps(mem: seq<Byte>, addr: nat, a: seq<Byte>, b: seq<Byte>)
    requires addr + |a| + |b| <= |mem|
    ensures Programmed(Programmed(mem, addr, a), addr + |a|, b) == Programmed(mem, addr, a + b)
  {}

  /** Programming reads back as the data exactly when no bit of the data has to be set. */
  lemma ReadsBackIff(mem: seq<Byte>, addr: nat, data: seq<Byte>)
    requires addr + |data| <= |mem|
    ensures Programmed(mem, addr, data)[addr..addr + |data|] == data <==>
            forall i :: 0 <= i < |data| ==> data[i] & !mem[addr + i] == 0
  {
    hide Clear;
    var r := Programmed(mem, addr, data)[addr..addr + |data|];
    forall i | 0 <= i < |data| ensures r[i] == data[i] <==> data[i] & !mem[addr + i] == 0 {
      ProgramsIff(mem[addr + i], data[i]);
    }
    if forall i :: 0 <= i < |data| ==> data[i] & !mem[addr + i] == 0 {
      assert r == data;
    }
  }

  /** The bits of a mask are left set exactly if they were set and are set in the data. */
  lemma ProgramBits(cell: Byte, data: Byte, mask: Byte)
    ensures Clear(cell, data) & mask == mask <==> cell & mask == mask && data & mask == mask
  {}

  lemma ProgramsIff(cell: Byte, data: Byte)
    ensures Clear(cell, data) == data <==> data & !cell == 0
  {}

  /** Cell `i` is in a sector under the range. */
  predicate InSectors(addr: nat, last: nat, i: nat) {
    addr / 4096 <= i / 4096 <= last / 4096
  }

  /** Every sector from that of `addr` to that of `last`, erased. */
  function RangeErased(mem: seq<Byte>, addr: nat, last: nat): (r: seq<Byte>)
    ensures |r| == |mem|
    decreases last - addr
  {
    if last < addr then mem
    else
      RangeErased(SectorErased(mem, addr), (addr / SECTOR_SIZE + 1) * SECTOR_SIZE, last)
  }

  lemma {:induction false} RangeErasedAt(mem: seq<Byte>, addr: nat, last: nat, i: nat)
    requires i < |mem| && addr <= last
    ensures RangeErased(mem, addr, last)[i] ==
            if InSectors(addr, last, i) then 0xFF else mem[i]
    decreases last - addr
  {
    var next := (addr / SECTOR_SIZE + 1) * SECTOR_SIZE;
    assert next / SECTOR_SIZE == addr / SECTOR_SIZE + 1;
    if next <= last {
      RangeErasedAt(SectorErased(mem, addr), next, last, i);
    }
  }

  /** Erase every sector under the range, write, read: the data comes back, and every byte outside
      the erased sectors is as it was. */
  lemma EraseWriteRead(mem: seq<Byte>, addr: nat, data: seq<Byte>)
    requires data != [] && addr + |data| <= |mem|
    ensures
      var last := addr + |data| - 1;
      var r := Programmed(RangeErased(mem, addr, last), addr, data);
      && r[addr..addr + |data|] == data
      && forall i :: 0 <= i < |mem| && !InSectors(addr, last, i) ==> r[i] == mem[i]
  {
    hide Clear;
    var last := addr + |data| - 1;
    var e := RangeErased(mem, addr, last);
    forall i | 0 <= i < |mem|
      ensures e[i] == if InSectors(addr, last, i) then 0xFF else mem[i]
    {
      RangeErasedAt(mem, addr, last, i);
    }
    forall i | 0 <= i < |data| ensures data[i] & !e[addr + i] == 0 {
      assert e[addr + i] == 0xFF;
      OnesKeep(data[i]);
    }
    ReadsBackIff(e, addr, data);
  }

  lemma OnesKeep(d: Byte)
    ensures d & !0xFF == 0
  {}

  // ---------- The boot image ----------

  const BOOTLOADER_MAGIC: Word := 0xB007C0DE
  const HEADER_SIZE := 16
  const MAX_IMAGE: nat := 0x100000

  /** A little-endian 32-bit field. */
  function Field(b0: Byte, b1: Byte, b2: Byte, b3: Byte): Word {
    (b0 as Word) | (b1 as Word << 8) | (b2 as Word << 16) | (b3 as Word << 24)
  }

  function FieldAt(mem: seq<Byte>, at: nat): Word
    requires at + 4 <= |mem|
  {
    Field(mem[at], mem[at + 1], mem[at + 2], mem[at + 3])
  }

  /** boot_header_t */
  datatype BootHeader = BootHeader(magic: Word, size: Word, crc32: Word, entryPoint: Word)

  function HeaderAt(mem: seq<Byte>, addr: nat): BootHeader
    requires addr + HEADER_SIZE <= |mem|
  {
    BootHeader(FieldAt(mem, addr), FieldAt(mem, addr + 4), FieldAt(mem, addr + 8), FieldAt(mem, addr + 12))
  }

  function SizeOf(field: Word): nat {
    field as nat
  }

  function SizeAt(mem: seq<Byte>, addr: nat): nat
    requires addr + HEADER_SIZE <= |mem|
  {
    SizeOf(FieldAt(mem, addr + 4))
  }

  /** The header is on the device and, unless it is refused for its size, so is the image. */
  predicate OnDevice(mem: seq<Byte>, addr: nat) {
    && addr + HEADER_SIZE <= |mem|
    && (SizeAt(mem, addr) <= MAX_IMAGE ==> addr + HEADER_SIZE + SizeAt(mem, addr) <= |mem|)
  }

  /** The boot image at `addr` is accepted: magic, size limit, and checksum over the image. */
  predicate Accepted(mem: seq<Byte>, addr: nat)
    requires OnDevice(mem, addr)
  {
    && FieldAt(mem, addr) == BOOTLOADER_MAGIC
    && SizeAt(mem, addr) <= MAX_IMAGE
    && Crc(mem[addr + HEADER_SIZE..addr + HEADER_SIZE + SizeAt(mem, addr)]) == FieldAt(mem, addr + 8)
  }

  lemma FieldInjective(a: seq<Byte>, b: seq<Byte>, at: nat)
    requires at + 4 <= |a| && at + 4 <= |b|
    ensures FieldAt(a, at) == FieldAt(b, at) <==> a[at..at + 4] == b[at..at + 4]
  {
    hide Field;
    if FieldAt(a, at) == FieldAt(b, at) {
      FieldBytes(a[at], a[at + 1], a[at + 2], a[at + 3], b[at], b[at + 1], b[at + 2], b[at + 3]);
    }
    if a[at..at + 4] == b[at..at + 4] {
      assert a[at..at + 4][0] == a[at] && a[at..at + 4][1] == a[at + 1];
      assert a[at..at + 4][2] == a[at + 2] && a[at..at + 4][3] == a[at + 3];
      assert b[at..at + 4][0] == b[at] && b[at..at + 4][1] == b[at + 1];
      assert b[at..at + 4][2] == b[at + 2] && b[at..at + 4][3] == b[at + 3];
    }
  }

  lemma FieldBytes(a: Byte, b: Byte, c: Byte, d: Byte, a': Byte, b': Byte, c': Byte, d': Byte)
    requires Field(a, b, c, d) == Field(a', b', c', d')
    ensures a == a' && b == b' && c == c' && d == d'
  {}

  lemma ByteBitsInjective(c: Byte, d: Byte)
    requires ByteBits(c) == ByteBits(d)
    ensures c == d
  {
    hide ByteBits, WordOf;
    WordOfByte(c);
    WordOfByte(d);
  }

  lemma {:induction false} BitsAt(x: seq<Byte>, k: nat)
    requires k < |x|
    ensures Bits(x)[8 * k..8 * k + 8] == ByteBits(x[k])
    ensures Bits(x)[8 * k + 8..] == Bits(x[k + 1..])
  {
    hide ByteBits;
    var first, tail := ByteBits(x[0]), Bits(x[1..]);
    assert Bits(x) == first + tail;
    if k == 0 {
      assert (first + tail)[..8] == first && (first + tail)[8..] == tail;
    } else {
      BitsAt(x[1..], k - 1);
      assert x[1..][k..] == x[k + 1..];
      SkipPrefix(first, tail, 8 * k - 8, 8 * k);
    }
  }

  lemma SkipPrefix(a: seq<bool>, b: seq<bool>, i: nat, j: nat)
    requires i <= j <= |b|
    ensures (a + b)[|a| + i..|a| + j] == b[i..j]
    ensures (a + b)[|a| + j..] == b[j..]
  {}

  /** A byte that differs puts the damage window over one of its bits. */
  lemma DamagedByte(x: seq<Byte>, y: seq<Byte>, s: nat, k: nat)
    requires |x| == |y| && DifferWithin32(Bits(x), Bits(y), s)
    requires k < |x| && x[k] != y[k]
    ensures s < 8 * k + 8 && 8 * k < s + 32
  {
    hide Bits, ByteBits;
    BitsAt(x, k);
    BitsAt(y, k);
    if s >= 8 * k + 8 || 8 * k >= s + 32 {
      assert Bits(x)[8 * k..8 * k + 8] == Bits(y)[8 * k..8 * k + 8];
      ByteBitsInjective(x[k], y[k]);
    }
  }

  /** Images that differ, within 32 consecutive bits, have different checksums. */
  lemma DamagedCrc(x: seq<Byte>, y: seq<Byte>, s: nat)
    requires |x| == |y| && DifferWithin32(Bits(x), Bits(y), s) && x != y
    ensures Crc(x) != Crc(y)
  {
    hide Bits, ByteBits, Feed, Xor;
    var k :| 0 <= k < |x| && x[k] != y[k];
    BitsAt(x, k);
    BitsAt(y, k);
    if Bits(x) == Bits(y) {
      ByteBitsInjective(x[k], y[k]);
    }
    BurstDetected(0xFFFFFFFF, Bits(x), Bits(y), s);
    if Crc(x) == Crc(y) {
      XorInjective(Feed(0xFFFFFFFF, Bits(x)), Feed(0xFFFFFFFF, Bits(y)), 0xFFFFFFFF);
    }
  }

  /** The header and image bytes of an accepted boot image. */
  function Region(mem: seq<Byte>, addr: nat): (r: seq<Byte>)
    requires OnDevice(mem, addr) && SizeAt(mem, addr) <= MAX_IMAGE
  {
    mem[addr..addr + HEADER_SIZE + SizeAt(mem, addr)]
  }

  /** The window cannot reach both the stored checksum (bytes 8 to 11 of the region) and the image
      (from byte 16): the four bytes of the entry point lie between them. */
  lemma ChecksumUntouched(x: seq<Byte>, y: seq<Byte>, s: nat)
    requires |x| == |y| >= HEADER_SIZE && DifferWithin32(Bits(x), Bits(y), s)
    requires x[HEADER_SIZE..] != y[HEADER_SIZE..]
    ensures x[8..12] == y[8..12]
  {
    hide Bits;
    var k :| 0 <= k < |x| - HEADER_SIZE && x[HEADER_SIZE..][k] != y[HEADER_SIZE..][k];
    DamagedByte(x, y, s, k + HEADER_SIZE);
    forall j | 8 <= j < 12 ensures x[j] == y[j] {
      if x[j] != y[j] {
        DamagedByte(x, y, s, j);
      }
    }
  }

  /** The part of the damage that falls into the image is still within 32 bits. */
  lemma ImageWindow(x: seq<Byte>, y: seq<Byte>, s: nat)
    requires |x| == |y| >= HEADER_SIZE && DifferWithin32(Bits(x), Bits(y), s)
    ensures DifferWithin32(Bits(x[HEADER_SIZE..]), Bits(y[HEADER_SIZE..]), if s < 128 then 0 else s - 128)
  {
    hide Bits;
    BitsAt(x, 15);
    BitsAt(y, 15);
    assert 8 * 15 + 8 == 128;
    var t := if s < 128 then 0 else s - 128;
    var xBits, yBits := Bits(x), Bits(y);
    forall i | 0 <= i < |xBits| - 128 && (i < t || i >= t + 32)
      ensures xBits[128..][i] == yBits[128..][i]
    {
      assert xBits[128 + i] == yBits[128 + i];
    }
  }

  lemma SameSize(v: Word, w: Word)
    requires v as nat == w as nat
    ensures v == w
  {
    assert v == (v as nat) as Word;
  }

  /** The header fields are four bytes each of the region. */
  lemma RegionField(good: seq<Byte>, bad: seq<Byte>, addr: nat, k: nat)
    requires OnDevice(good, addr) && SizeAt(good, addr) <= MAX_IMAGE
    requires OnDevice(bad, addr) && SizeAt(bad, addr) <= MAX_IMAGE
    requires k + 4 <= HEADER_SIZE
    ensures FieldAt(good, addr + k) == FieldAt(bad, addr + k) <==>
            Region(good, addr)[k..k + 4] == Region(bad, addr)[k..k + 4]
  {
    hide Field, SizeAt;
    FieldInjective(good, bad, addr + k);
    RegionSlice(good, addr, k);
    RegionSlice(bad, addr, k);
  }

  lemma RegionSlice(mem: seq<Byte>, addr: nat, k: nat)
    requires OnDevice(mem, addr) && SizeAt(mem, addr) <= MAX_IMAGE
    requires k + 4 <= HEADER_SIZE
    ensures Region(mem, addr)[k..k + 4] == mem[addr + k..addr + k + 4]
    ensures Region(mem, addr)[HEADER_SIZE..] == mem[addr + HEADER_SIZE..addr + HEADER_SIZE + SizeAt(mem, addr)]
  {
    hide SizeAt;
    SliceOfSlice(mem, addr, addr + HEADER_SIZE + SizeAt(mem, addr), k, k + 4);
    SliceOfSlice(mem, addr, addr + HEADER_SIZE + SizeAt(mem, addr), HEADER_SIZE, HEADER_SIZE + SizeAt(mem, addr));
  }

  lemma SliceOfSlice(mem: seq<Byte>, a: nat, b: nat, i: nat, j: nat)
    requires a + i <= a + j <= b <= |mem|
    ensures mem[a..b][i..j] == mem[a + i..a + j]
  {
    forall k | 0 <= k < j - i ensures mem[a..b][i..j][k] == mem[a + i..a + j][k] {}
  }

  /** What the check guarantees.  Take an accepted boot image and change any of its bits inside one
      window of 32 consecutive bits, leaving the size field alone.  The result is accepted exactly
      when nothing outside the entry point changed: that field is not covered by the checksum. */
  lemma DamageDetected(good: seq<Byte>, bad: seq<Byte>, addr: nat, s: nat)
    requires |good| == |bad| && OnDevice(good, addr) && Accepted(good, addr)
    requires SizeAt(bad, addr) == SizeAt(good, addr)
    requires DifferWithin32(Bits(Region(good, addr)), Bits(Region(bad, addr)), s)
    ensures
      var x, y := Region(good, addr), Region(bad, addr);
      Accepted(bad, addr) <==> x[..12] == y[..12] && x[HEADER_SIZE..] == y[HEADER_SIZE..]
  {
    hide Bits, Crc, FieldAt, SizeAt, DifferWithin32;
    var x, y := Region(good, addr), Region(bad, addr);
    RegionField(good, bad, addr, 0);
    RegionField(good, bad, addr, 8);
    SizeField(good, bad, addr);
    RegionSlice(good, addr, 0);
    RegionSlice(bad, addr, 0);
    FirstTwelve(x, y);
    if x[HEADER_SIZE..] != y[HEADER_SIZE..] {
      ChecksumUntouched(x, y, s);
      ImageWindow(x, y, s);
      DamagedCrc(x[HEADER_SIZE..], y[HEADER_SIZE..], if s < 128 then 0 else s - 128);
    }
  }

  lemma SizeField(good: seq<Byte>, bad: seq<Byte>, addr: nat)
    requires OnDevice(good, addr) && SizeAt(good, addr) <= MAX_IMAGE
    requires OnDevice(bad, addr) && SizeAt(bad, addr) == SizeAt(good, addr)
    ensures Region(good, addr)[4..8] == Region(bad, addr)[4..8]
  {
    hide FieldAt;
    SameSize(FieldAt(good, addr + 4), FieldAt(bad, addr + 4));
    RegionField(good, bad, addr, 4);
  }

  lemma FirstTwelve(x: seq<Byte>, y: seq<Byte>)
    requires |x| >= 12 && |y| >= 12 && x[4..8] == y[4..8]
    ensures x[..12] == y[..12] <==> x[0..4] == y[0..4] && x[8..12] == y[8..12]
  {
    assert x[..12] == x[0..4] + x[4..8] + x[8..12] && y[..12] == y[0..4] + y[4..8] + y[8..12];
    if x[..12] == y[..12] {
      assert x[0..4] == x[..12][0..4] && x[8..12] == x[..12][8..12];
      assert y[0..4] == y[..12][0..4] && y[8..12] == y[..12][8..12];
    }
  }

  /** The bytes of the image at `addr` from one offset to another. */
  function Image(mem: seq<Byte>, addr: nat, from: nat, to: nat): seq<Byte>
    requires from <= to && addr + HEADER_SIZE + to <= |mem|
  {
    mem[addr + HEADER_SIZE + from..addr + HEADER_SIZE + to]
  }

  /** How the bytes between the sizes `m` and `n`, fed behind those up to the smaller, change the register. */
  function Drift(mem: seq<Byte>, addr: nat, m: nat, n: nat): Word
    requires addr + HEADER_SIZE + m <= |mem| && addr + HEADER_SIZE + n <= |mem|
  {
    var lo, hi := if m < n then m else n, if m < n then n else m;
    var register := Register(Image(mem, addr, 0, lo));
    Xor(Feed(register, Bits(Image(mem, addr, lo, hi))), register)
  }

  lemma DriftIs(mem: seq<Byte>, addr: nat, m: nat, n: nat)
    requires addr + HEADER_SIZE + m <= |mem| && addr + HEADER_SIZE + n <= |mem|
    ensures Drift(mem, addr, m, n) == Xor(Crc(Image(mem, addr, 0, m)), Crc(Image(mem, addr, 0, n)))
  {
    hide Crc, Feed, Bits, Register, Xor;
    var lo, hi := if m < n then m else n, if m < n then n else m;
    CrcChange(Image(mem, addr, 0, lo), Image(mem, addr, lo, hi));
    XorCommutative(Crc(Image(mem, addr, 0, lo)), Crc(Image(mem, addr, 0, hi)));
    assert Image(mem, addr, 0, lo) + Image(mem, addr, lo, hi) == Image(mem, addr, 0, hi);
  }

  /** Any damage to the header of an accepted image.  It stays accepted exactly when the magic is intact, the
      size is within the limit, and the checksum field changed just as the bytes gained or lost by the size
      field change the register. */
  lemma HeaderDamageIff(good: seq<Byte>, bad: seq<Byte>, addr: nat)
    requires |good| == |bad| && OnDevice(good, addr) && OnDevice(bad, addr) && Accepted(good, addr)
    requires forall i :: 0 <= i < |good| && !(addr <= i < addr + HEADER_SIZE) ==> bad[i] == good[i]
    ensures Accepted(bad, addr) <==>
            && FieldAt(bad, addr) == BOOTLOADER_MAGIC && SizeAt(bad, addr) <= 0x100000
            && Drift(good, addr, SizeAt(good, addr), SizeAt(bad, addr)) ==
               Xor(FieldAt(good, addr + 8), FieldAt(bad, addr + 8))
  {
    hide Crc, Feed, Bits, Register, Field, SizeOf, SizeAt, Drift, Xor;
    var m, n := SizeAt(good, addr), SizeAt(bad, addr);
    if n <= MAX_IMAGE {
      assert Image(bad, addr, 0, n) == Image(good, addr, 0, n);
      DriftIs(good, addr, m, n);
      var crc := Crc(Image(good, addr, 0, n));
      SameXor(FieldAt(good, addr + 8), crc, FieldAt(bad, addr + 8));
    }
  }

  lemma SameXor(a: Word, b: Word, c: Word)
    ensures Xor(a, b) == Xor(a, c) <==> b == c
  {}

  /** Damage to the size field alone: the image of the wrong size is accepted exactly when the bytes it gains
      or loses return the register to where it was; that is, when the generator divides the sum of these
      bytes followed by the register, and of the register in front of as many zeros. */
  lemma SizeDamageIff(good: seq<Byte>, bad: seq<Byte>, addr: nat)
    requires |good| == |bad| && OnDevice(good, addr) && OnDevice(bad, addr) && Accepted(good, addr)
    requires forall i :: 0 <= i < |good| && !(addr + 4 <= i < addr + 8) ==> bad[i] == good[i]
    ensures Accepted(bad, addr) <==>
            && SizeAt(bad, addr) <= 0x100000
            && var lo, hi := Smaller(good, bad, addr), Larger(good, bad, addr);
               var register := LowBits(32, Register(Image(good, addr, 0, lo)));
               var bytes := Bits(Image(good, addr, lo, hi));
               Divides(XorBits(bytes + register, register + Zeros(|bytes|)))
  {
    hide Crc, Feed, Bits, Register, Field, SizeOf, SizeAt, Drift, Xor, LowBits, Divides;
    HeaderDamageIff(good, bad, addr);
    FieldInjective(good, bad, addr);
    FieldInjective(good, bad, addr + 8);
    assert good[addr..addr + 4] == bad[addr..addr + 4] && good[addr + 8..addr + 12] == bad[addr + 8..addr + 12];
    if SizeAt(bad, addr) <= MAX_IMAGE {
      NoDriftIff(good, addr, SizeAt(good, addr), SizeAt(bad, addr));
      XorSelf(FieldAt(good, addr + 8));
    }
  }

  function Smaller(a: seq<Byte>, b: seq<Byte>, addr: nat): nat
    requires addr + HEADER_SIZE <= |a| && addr + HEADER_SIZE <= |b|
  {
    if SizeAt(a, addr) < SizeAt(b, addr) then SizeAt(a, addr) else SizeAt(b, addr)
  }

  function Larger(a: seq<Byte>, b: seq<Byte>, addr: nat): nat
    requires addr + HEADER_SIZE <= |a| && addr + HEADER_SIZE <= |b|
  {
    if SizeAt(a, addr) < SizeAt(b, addr) then SizeAt(b, addr) else SizeAt(a, addr)
  }

  lemma NoDriftIff(mem: seq<Byte>, addr: nat, m: nat, n: nat)
    requires addr + HEADER_SIZE + m <= |mem| && addr + HEADER_SIZE + n <= |mem|
    ensures
      var lo, hi := if m < n then m else n, if m < n then n else m;
      var register := LowBits(32, Register(Image(mem, addr, 0, lo)));
      var bytes := Bits(Image(mem, addr, lo, hi));
      Drift(mem, addr, m, n) == 0 <==> Divides(XorBits(bytes + register, register + Zeros(|bytes|)))
  {
    hide Feed, Bits, Register, Xor, LowBits, Divides;
    var lo, hi := if m < n then m else n, if m < n then n else m;
    var register, bytes := Register(Image(mem, addr, 0, lo)), Bits(Image(mem, addr, lo, hi));
    ReachesIffDivides(register, bytes, register);
    SameIffXorZero(Feed(register, bytes), register);
  }

  /** What the check guarantees against any damage inside one window of 32 consecutive bits of header and
      image.  With the size field as it was, only damage to the entry point passes.  With another size, the
      window is inside the header, and what passes is what `HeaderDamageIff` says. */
  lemma WindowDamageIff(good: seq<Byte>, bad: seq<Byte>, addr: nat, s: nat)
    requires |good| == |bad| && OnDevice(good, addr) && OnDevice(bad, addr) && Accepted(good, addr)
    requires
      var end := addr + HEADER_SIZE + SizeAt(good, addr);
      && DifferWithin32(Bits(good[addr..end]), Bits(bad[addr..end]), s)
      && forall i :: 0 <= i < |good| && !(addr <= i < end) ==> bad[i] == good[i]
    ensures
      var end := addr + HEADER_SIZE + SizeAt(good, addr);
      var x, y := good[addr..end], bad[addr..end];
      Accepted(bad, addr) <==>
        if SizeAt(bad, addr) == SizeAt(good, addr) then x[..12] == y[..12] && x[HEADER_SIZE..] == y[HEADER_SIZE..]
        else
          && FieldAt(bad, addr) == BOOTLOADER_MAGIC && SizeAt(bad, addr) <= MAX_IMAGE
          && Drift(good, addr, SizeAt(good, addr), SizeAt(bad, addr)) ==
             Xor(FieldAt(good, addr + 8), FieldAt(bad, addr + 8))
  {
    hide Crc, Bits, FieldAt, SizeAt, SizeOf, DifferWithin32, Drift, Xor;
    if SizeAt(bad, addr) == SizeAt(good, addr) {
      DamageDetected(good, bad, addr, s);
    } else {
      SizeWindow(good, bad, addr, s);
      HeaderDamageIff(good, bad, addr);
    }
  }

  lemma SomeByte(x: seq<Byte>, y: seq<Byte>, i: nat, j: nat)
    requires i <= j <= |x| && j <= |y| && x[i..j] != y[i..j]
    ensures exists k :: i <= k < j && x[k] != y[k]
  {
    var d :| 0 <= d < j - i && x[i..j][d] != y[i..j][d];
    assert x[i + d] != y[i + d];
  }

  /** A window that reaches the size field stays inside the header. */
  lemma SizeWindow(good: seq<Byte>, bad: seq<Byte>, addr: nat, s: nat)
    requires |good| == |bad| && addr + HEADER_SIZE <= |good| && SizeAt(bad, addr) != SizeAt(good, addr)
    requires addr + HEADER_SIZE + SizeAt(good, addr) <= |good|
    requires
      var end := addr + HEADER_SIZE + SizeAt(good, addr);
      && DifferWithin32(Bits(good[addr..end]), Bits(bad[addr..end]), s)
      && forall i :: 0 <= i < |good| && !(addr <= i < end) ==> bad[i] == good[i]
    ensures forall i :: 0 <= i < |good| && !(addr <= i < addr + HEADER_SIZE) ==> bad[i] == good[i]
  {
    hide Bits, FieldAt, SizeOf, DifferWithin32;
    var end := addr + HEADER_SIZE + SizeAt(good, addr);
    var x, y := good[addr..end], bad[addr..end];
    FieldInjective(good, bad, addr + 4);
    SliceOfSlice(good, addr, end, 4, 8);
    SliceOfSlice(bad, addr, end, 4, 8);
    SomeByte(x, y, 4, 8);
    var k :| 4 <= k < 8 && x[k] != y[k];
    DamagedByte(x, y, s, k);
    forall i | 0 <= i < |good| && !(addr <= i < addr + HEADER_SIZE) ensures bad[i] == good[i] {
      if addr + HEADER_SIZE <= i < end && x[i - addr] != y[i - addr] {
        DamagedByte(x, y, s, i - addr);
      }
    }
  }

  /** A flash of one sector with the header of an image of `size` bytes with checksum 0 and entry point
      `entryPoint`, behind it the four silent bytes, and then ones. */
  function Sample(size: Byte, entryPoint: Byte): (mem: seq<Byte>)
    ensures |mem| == SECTOR_SIZE
  {
    [0xDE, 0xC0, 0x07, 0xB0, size, 0, 0, 0, 0, 0, 0, 0, entryPoint, 0, 0, 0] + SILENT + seq(SECTOR_SIZE - 20, _ => 0xFF)
  }

  /** Both kinds of damage that can pass do pass: a size field changed from 0 to 4, and a changed entry
      point. */
  lemma DamageAccepted()
    ensures OnDevice(Sample(0, 0), 0) && Accepted(Sample(0, 0), 0)
    ensures OnDevice(Sample(4, 0), 0) && Accepted(Sample(4, 0), 0)
    ensures OnDevice(Sample(0, 1), 0) && Accepted(Sample(0, 1), 0)
  {
    hide Sample, OnDevice, Accepted;
    SampleAccepted(0, 0);
    SampleAccepted(4, 0);
    SampleAccepted(0, 1);
  }

  lemma SampleAccepted(size: Byte, entryPoint: Byte)
    requires size == 0 || size == 4
    ensures OnDevice(Sample(size, entryPoint), 0) && Accepted(Sample(size, entryPoint), 0)
  {
    hide Crc, FieldAt, SizeAt, Sample;
    SilentCrc();
    SampleFields(size, entryPoint);
    SampleImage(size, entryPoint);
  }

  lemma SampleImage(size: Byte, entryPoint: Byte)
    ensures Sample(size, entryPoint)[16..16] == [] && Sample(size, entryPoint)[16..20] == SILENT
  {}

  lemma SampleFields(size: Byte, entryPoint: Byte)
    requires size == 0 || size == 4
    ensures FieldAt(Sample(size, entryPoint), 0) == BOOTLOADER_MAGIC && FieldAt(Sample(size, entryPoint), 8) == 0
    ensures SizeAt(Sample(size, entryPoint), 0) == if size == 0 then 0 else 4
  {}

  // ---------- The driver ----------

  /** The flash device, with the driver's checksum table. */
  class Flash {
    const mem: array<Byte>
    const crc: CrcEngine

    ghost predicate Valid()
      reads crc, crc.table
    {
      mem.Length % SECTOR_SIZE == 0 && mem as object != crc.table as object && crc.Valid()
    }

    constructor (sectors: nat)
      ensures Valid() && mem.Length == sectors * SECTOR_SIZE
    {
      mem := new Byte[sectors * SECTOR_SIZE](_ => 0xFF);
      crc := new CrcEngine();
    }

    /** flash_read */
    method Read(addr: nat, buf: array<Byte>, len: nat)
      requires addr + len <= mem.Length && len <= buf.Length && buf != mem
      modifies buf
      ensures buf[..len] == mem[addr..addr + len]
      ensures buf[len..] == old(buf[len..])
    {
      for i := 0 to len
        invariant buf[..i] == mem[addr..addr + i]
        invariant buf[len..] == old(buf[len..])
      {
        buf[i] := mem[addr + i];
      }
    }

    /** flash_sector_erase: the device erases the sector the address lies in. */
    method SectorErase(addr: nat)
      requires Valid() && addr < mem.Length
      modifies mem
      ensures mem[..] == SectorErased(old(mem[..]), addr)
    {
      forall i | 0 <= i < mem.Length && i / SECTOR_SIZE == addr / SECTOR_SIZE {
        mem[i] := 0xFF;
      }
    }

    /** flash_page_program: at most 256 bytes are sent, and each byte that arrives is programmed at
        the next address of the page. */
    method PageProgram(addr: nat, buf: seq<Byte>, length: nat)
      requires Valid() && addr < mem.Length && length <= |buf|
      modifies mem
      ensures mem[..] == PageProgrammed(old(mem[..]), addr, buf[..if length > 256 then 256 else length])
    {
      hide PageProgrammed, Target, Clear;
      var len := length;
      if len > 256 { len := 256; }
      NothingArrives(mem[..], addr);
      for i := 0 to len
        invariant mem[..] == PageProgrammed(old(mem[..]), addr, buf[..i])
      {
        ghost var before := mem[..];
        var at := Target(addr, i);
        PageFits(addr, i, mem.Length);
        mem[at] := Clear(mem[at], buf[i]);
        ByteArrives(old(mem[..]), addr, buf, i);
        assert mem[..] == before[at := Clear(before[at], buf[i])];
      }
    }

    /** flash_write splits the data at page boundaries, so that no chunk wraps. */
    method Write(address: nat, data: seq<Byte>)
      requires Valid() && address + |data| <= mem.Length
      modifies mem
      ensures mem[..] == Programmed(old(mem[..]), address, data)
    {
      hide PageProgrammed, Programmed;
      var addr, buf, len := address, data, |data|;
      NothingProgrammed(mem[..], address);
      while len > 0
        invariant len == |buf| && addr == address + |data| - len
        invariant buf == data[|data| - len..]
        invariant mem[..] == Programmed(old(mem[..]), address, data[..|data| - len])
      {
        var pageOffset := addr % PAGE_SIZE;
        var pageRemaining := PAGE_SIZE - pageOffset;
        var chunkSize := if len < pageRemaining then len else pageRemaining;
        ghost var was, done := mem[..], data[..|data| - len];
        PageProgram(addr, buf, chunkSize);
        NoWrap(was, addr, buf[..chunkSize]);
        ProgrammedInSteps(old(mem[..]), address, done, buf[..chunkSize]);
        assert data[..|data| - len + chunkSize] == done + buf[..chunkSize];
        addr := addr + chunkSize;
        buf := buf[chunkSize..];
        len := len - chunkSize;
      }
      assert data[..|data|] == data;
    }

    /** Erase every sector under the range, write, read back, as the demo task does: the data comes back, and
        every byte outside the erased sectors is as it was. */
    method EraseWriteReadBack(addr: nat, data: seq<Byte>, buf: array<Byte>)
      requires Valid() && data != [] && addr + |data| <= mem.Length
      requires buf.Length >= |data| && buf != mem
      modifies mem, buf
      ensures buf[..|data|] == data && buf[|data|..] == old(buf[|data|..])
      ensures mem[addr..addr + |data|] == data
      ensures forall i :: 0 <= i < mem.Length && !InSectors(addr, addr + |data| - 1, i) ==> mem[i] == old(mem[i])
    {
      hide RangeErased, SectorErased, Programmed, InSectors;
      var at, last := addr, addr + |data| - 1;
      while at <= last
        invariant buf[..] == old(buf[..])
        invariant addr <= at && RangeErased(old(mem[..]), addr, last) == RangeErased(mem[..], at, last)
        decreases last + 1 - at
      {
        EraseFirst(mem[..], at, last);
        SectorErase(at);
        at := (at / SECTOR_SIZE + 1) * SECTOR_SIZE;
      }
      NothingErased(mem[..], at, last);
      Write(addr, data);
      EraseWriteRead(old(mem[..]), addr, data);
      assert buf[|data|..] == buf[..][|data|..];
      ghost var before, r := old(mem[..]), mem[..];
      Read(addr, buf, |data|);
      assert mem[..] == r && r[addr..addr + |data|] == mem[addr..addr + |data|];
      assert forall i :: 0 <= i < mem.Length ==> mem[i] == r[i] && old(mem[i]) == before[i];
    }

    /** The header read at the start of flash_boot_validate. */
    method ReadHeader(addr: nat) returns (header: BootHeader)
      requires addr + HEADER_SIZE <= mem.Length
      ensures header == HeaderAt(mem[..], addr)
    {
      hide FieldAt;
      var bytes := new Byte[HEADER_SIZE](_ => 0);
      Read(addr, bytes, HEADER_SIZE);
      var h := bytes[..];
      HeaderFields(mem[..], h, addr);
      header := BootHeader(FieldAt(h, 0), FieldAt(h, 4), FieldAt(h, 8), FieldAt(h, 12));
    }

    /** flash_boot_validate */
    method BootValidate(addr: nat, ram: array<Byte>) returns (ok: bool)
      requires Valid() && OnDevice(mem[..], addr)
      requires ram.Length == MAX_IMAGE && ram != mem && ram as object != crc.table as object
      modifies ram, crc, crc.table
      ensures Valid() && mem[..] == old(mem[..])
      ensures ok == Accepted(mem[..], addr)
    {
      hide Crc, FieldAt, IsTable, SizeOf;
      ghost var m := mem[..];
      var header := ReadHeader(addr);
      if header.magic != BOOTLOADER_MAGIC { return false; }
      var size := SizeOf(header.size);
      if size > MAX_IMAGE { return false; }
      Read(addr + HEADER_SIZE, ram, size);
      var calcCrc := crc.Calc(ram[..size]);
      assert mem[..] == m;
      ok := calcCrc == header.crc32;
    }
  }

  lemma HeaderFields(mem: seq<Byte>, header: seq<Byte>, addr: nat)
    requires |header| == HEADER_SIZE && addr + HEADER_SIZE <= |mem|
    requires header[..HEADER_SIZE] == mem[addr..addr + HEADER_SIZE]
    ensures FieldAt(header, 0) == FieldAt(mem, addr)
    ensures FieldAt(header, 4) == FieldAt(mem, addr + 4)
    ensures FieldAt(header, 8) == FieldAt(mem, addr + 8)
    ensures FieldAt(header, 12) == FieldAt(mem, addr + 12)
  {
    hide Field;
    assert forall i {:trigger header[i]} :: 0 <= i < HEADER_SIZE ==> header[i] == header[..HEADER_SIZE][i];
    assert forall i {:trigger header[i]} :: 0 <= i < HEADER_SIZE ==> header[i] == mem[addr + i];
  }

  lemma PageFits(addr: nat, k: nat, capacity: nat)
    requires addr < capacity && capacity % SECTOR_SIZE == 0
    ensures Target(addr, k) < capacity
  {
    var pages := 16 * (capacity / SECTOR_SIZE);
    var p := addr / PAGE_SIZE;
    assert capacity == pages * PAGE_SIZE;
    assert addr == p * PAGE_SIZE + addr % PAGE_SIZE;
    assert p < pages;
  }

  lemma EraseFirst(mem: seq<Byte>, at: nat, last: nat)
    requires at <= last
    ensures at < (at / SECTOR_SIZE + 1) * SECTOR_SIZE
    ensures RangeErased(mem, at, last) == RangeErased(SectorErased(mem, at), (at / SECTOR_SIZE + 1) * SECTOR_SIZE, last)
  {
    hide SectorErased;
  }

  lemma NothingErased(mem: seq<Byte>, at: nat, last: nat)
    requires last < at
    ensures RangeErased(mem, at, last) == mem
  {}

  lemma NothingProgrammed(mem: seq<Byte>, addr: nat)
    requires addr <= |mem|
    ensures Programmed(mem, addr, []) == mem
  {}

  lemma NothingArrives(mem: seq<Byte>, addr: nat)
    ensures PageProgrammed(mem, addr, []) == mem
  {}

  /** The k-th byte of a program command changes its target cell and no other. */
  lemma ByteArrives(mem: seq<Byte>, addr: nat, buf: seq<Byte>, k: nat)
    requires k < |buf| && k < PAGE_SIZE && Target(addr, k) < |mem|
    ensures
      var at := Target(addr, k);
      var before := PageProgrammed(mem, addr, buf[..k]);
      PageProgrammed(mem, addr, buf[..k + 1]) == before[at := Clear(before[at], buf[k])]
  {
    hide SamePage, Arrival, Target, Clear;
    var at := Target(addr, k);
    var before := PageProgrammed(mem, addr, buf[..k]);
    var after := PageProgrammed(mem, addr, buf[..k + 1]);
    forall i | 0 <= i < |mem|
      ensures after[i] == before[at := Clear(before[at], buf[k])][i]
    {
      ArrivalTarget(addr, k, i);
      ArrivalTarget(addr, k, at);
    }
  }

  /** What a program command does inside its page: byte `k` goes `k` cells on, past the end of the page to its
      start, and no cell of another page changes. */
  lemma PageWraps(mem: seq<Byte>, addr: nat, data: seq<Byte>, k: nat)
    requires k < |data| <= 256 && addr - addr % 256 + 256 <= |mem|
    ensures
      var at := addr - addr % 256 + (addr % 256 + k) % 256;
      PageProgrammed(mem, addr, data)[at] == Clear(mem[at], data[k])
    ensures forall i :: 0 <= i < |mem| && i / 256 != addr / 256 ==> PageProgrammed(mem, addr, data)[i] == mem[i]
  {
    hide Clear, Arrival;
    var at := Target(addr, k);
    assert addr == 256 * (addr / 256) + addr % 256;
    assert (addr + k) % 256 == (addr % 256 + k) % 256;
    ArrivalTarget(addr, k, at);
  }

  lemma ArrivalTarget(addr: nat, k: nat, i: nat)
    requires k < PAGE_SIZE
    ensures SamePage(addr, i) && Arrival(addr, i) == k <==> i == Target(addr, k)
  {
    var p, o := addr / PAGE_SIZE, addr % PAGE_SIZE;
    assert addr == p * PAGE_SIZE + o;
    if i / PAGE_SIZE == p {
      var j := i - p * PAGE_SIZE;
      assert (i - addr) % PAGE_SIZE == if j >= o then j - o else j - o + PAGE_SIZE;
    }
    assert (addr + k) % PAGE_SIZE == if o + k < PAGE_SIZE then o + k else o + k - PAGE_SIZE;
  }
}
