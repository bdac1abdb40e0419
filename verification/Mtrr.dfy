/** Variable-range memory type registers (src/drivers/cache.c; section 11.11.2.3 of the Intel SDM,
    Volume 3A): the mask arithmetic, and the copy the driver keeps of the registers.  Bit operations
    on the 64-bit values are written in arithmetic. */
module Mtrr {
  import opened MachineTypes

  const TWO_TO_64 := 0x1_0000_0000_0000_0000

  type Reg = x: int | 0 <= x < TWO_TO_64

  // ---------- Bits ----------

  /** Bitwise and. */
  function And(x: nat, y: nat): (r: nat)
    ensures r <= y
    decreases y
  {
    if y == 0 then 0
    else 2 * And(x / 2, y / 2) + if x % 2 == 1 && y % 2 == 1 then 1 else 0
  }

  /** x >> k */
  function Shr(x: nat, k: nat): nat {
    if k == 0 then x else Shr(x / 2, k - 1)
  }

  /** x << k, without a width. */
  function Shl(x: nat, k: nat): nat
    decreases k
  {
    if k == 0 then x else 2 * Shl(x, k - 1)
  }

  /** `m` ones. */
  function Ones(m: nat): nat {
    if m == 0 then 0 else 2 * Ones(m - 1) + 1
  }

  /** The low `m` bits. */
  function Low(x: nat, m: nat): nat {
    if m == 0 then 0 else 2 * Low(x / 2, m - 1) + x % 2
  }

  /** x & 0xFFFFF000: the low 20 bits of the page number. */
  function Clip(x: nat): Reg {
    0x1000 * And(x / 0x1000, 0xFFFFF)
  }

  predicate ValidBit(mask: Reg) {
    mask / 0x800 % 2 == 1
  }

  /** The PHYSMASK value cache_setup_mtrr computes: the 64-bit complement of `size` - 1, clipped, with
      the valid bit set. */
  function MaskFor(size: Reg): Reg {
    Clip((TWO_TO_64 - size) % TWO_TO_64) + 0x800
  }

  /** The PHYSBASE value it writes: the type goes below the clipped base. */
  function BaseFor(base: Reg, memType: nat): Reg
    requires memType < 0x100
  {
    Clip(base) + memType
  }

  /** How the processor matches an address against a register pair: page numbers are compared where the
      mask has ones. */
  predicate Matches(physBase: Reg, physMask: Reg, a: Reg) {
    && ValidBit(physMask)
    && And(a / 0x1000, physMask / 0x1000) == And(physBase / 0x1000, physMask / 0x1000)
  }

  predicate InRange(a: nat, base: nat, size: nat) {
    base <= a < base + size
  }

  // ---------- Shifts, masks and blocks ----------

  lemma {:induction false} AndShl(x: nat, y: nat, k: nat)
    ensures And(x, Shl(y, k)) == Shl(And(Shr(x, k), y), k)
    decreases k
  {
    if k > 0 {
      AndShl(x / 2, y, k - 1);
    }
  }

  lemma {:induction false} AndOnes(x: nat, m: nat)
    ensures And(x, Ones(m)) == Low(x, m)
  {
    if m > 0 {
      AndOnes(x / 2, m - 1);
    }
  }

  lemma TwentyOnes()
    ensures Ones(20) == 0xFFFFF && Shl(1, 20) == 0x100000
  {
    assert Ones(4) == 0xF && Shl(1, 4) == 0x10;
    assert Ones(8) == 0xFF && Shl(1, 8) == 0x100;
    assert Ones(12) == 0xFFF && Shl(1, 12) == 0x1000;
    assert Ones(16) == 0xFFFF && Shl(1, 16) == 0x10000;
  }

  lemma FiftyTwo()
    ensures Shl(1, 52) == 0x10_0000_0000_0000
  {
    TwentyOnes();
    assert Shl(1, 24) == 0x1000000;
    assert Shl(1, 28) == 0x10000000;
    assert Shl(1, 32) == 0x100000000;
    assert Shl(1, 36) == 0x1000000000;
    assert Shl(1, 40) == 0x10000000000;
    assert Shl(1, 44) == 0x100000000000;
    assert Shl(1, 48) == 0x1000000000000;
  }

  lemma {:induction false} LowShr(x: nat, k: nat, n: nat)
    requires k <= n
    ensures Low(Shr(x, k), n - k) == Shr(Low(x, n), k)
    decreases k
  {
    if k > 0 {
      LowShr(x / 2, k - 1, n - 1);
    }
  }

  lemma {:induction false} LowShl(x: nat, k: nat, n: nat)
    ensures Low(Shl(x, k), n) == if k <= n then Shl(Low(x, n - k), k) else 0
    decreases k
  {
    if k > 0 && n > 0 {
      LowShl(x, k - 1, n - 1);
    }
  }

  lemma {:induction false} LowOnes(m: nat, n: nat)
    requires n <= m
    ensures Low(Ones(m), n) == Ones(n)
  {
    if n > 0 {
      LowOnes(m - 1, n - 1);
    }
  }

  lemma {:induction false} LowSmall(x: nat, m: nat)
    requires x < Shl(1, m)
    ensures Low(x, m) == x
  {
    if m > 0 {
      LowSmall(x / 2, m - 1);
    }
  }

  lemma {:induction false} ShlInjective(x: nat, y: nat, k: nat)
    ensures Shl(x, k) == Shl(y, k) <==> x == y
    decreases k
  {
    if k > 0 {
      ShlInjective(x, y, k - 1);
    }
  }

  lemma {:induction false} ShlPlusOne(q: nat, k: nat)
    ensures Shl(q + 1, k) == Shl(q, k) + Shl(1, k)
    decreases k
  {
    if k > 0 {
      ShlPlusOne(q, k - 1);
    }
  }

  /** The numbers that shift down to `q` are one block. */
  lemma {:induction false} Block(x: nat, q: nat, k: nat)
    ensures Shr(x, k) == q <==> Shl(q, k) <= x < Shl(q + 1, k)
    decreases k
  {
    if k > 0 {
      Block(x / 2, q, k - 1);
    }
  }

  lemma {:induction false} OnesShl(m: nat, k: nat)
    ensures Shl(Ones(m), k) + Shl(1, k) == Shl(1, m + k)
    decreases m + k
  {
    if k > 0 {
      OnesShl(m, k - 1);
    } else if m > 0 {
      OnesShl(m - 1, 0);
    }
  }

  // ---------- The programmed pair covers the range ----------

  /** `size` is 2^j pages. */
  ghost predicate IsSize(size: Reg, j: nat) {
    j < 52 && size == 0x1000 * Shl(1, j)
  }

  /** `base` is below 4 GiB and a multiple of 2^j pages. */
  ghost predicate Aligned(base: Reg, j: nat) {
    base < TWO_TO_32 && exists q: nat :: base == 0x1000 * Shl(q, j)
  }

  /** The address without its bits from 32 up. */
  function Low32(a: Reg): nat {
    0x1000 * Low(a / 0x1000, 20) + a % 0x1000
  }

  /** The page mask has a one for every bit of a 20-bit page number from `j` up. */
  lemma MaskPages(size: Reg, j: nat)
    requires IsSize(size, j)
    ensures ValidBit(MaskFor(size))
    ensures MaskFor(size) / 0x1000 == if j <= 20 then Shl(Ones(20 - j), j) else 0
  {
    hide And, Low, Ones, Shl, MaskFor, ValidBit;
    FiftyTwo();
    OnesShl(52 - j, j);
    var pages := Shl(Ones(52 - j), j);
    Positive(j);
    MaskValue(size, pages);
    TwentyOnes();
    AndOnes(pages, 20);
    LowShl(Ones(52 - j), j, 20);
    if j <= 20 {
      LowOnes(52 - j, 20 - j);
    }
  }

  lemma MaskValue(size: Reg, pages: nat)
    requires size > 0 && TWO_TO_64 - size == 0x1000 * pages
    ensures ValidBit(MaskFor(size))
    ensures MaskFor(size) / 0x1000 == And(pages, 0xFFFFF)
  {
    hide And;
    assert (TWO_TO_64 - size) % TWO_TO_64 == 0x1000 * pages;
    assert 0x1000 * pages / 0x1000 == pages;
    var m := And(pages, 0xFFFFF);
    assert MaskFor(size) == 0x1000 * m + 0x800;
    assert (0x1000 * m + 0x800) / 0x800 == 2 * m + 1;
  }

  lemma {:induction false} Positive(j: nat)
    ensures Shl(1, j) > 0
  {
    if j > 0 {
      Positive(j - 1);
    }
  }

  lemma BasePages(base: Reg, memType: nat)
    requires base < TWO_TO_32 && base % 0x1000 == 0 && memType < 0x100
    ensures BaseFor(base, memType) / 0x1000 == base / 0x1000
    ensures Low(base / 0x1000, 20) == base / 0x1000
  {
    hide And, Low, Ones, Shl;
    TwentyOnes();
    AndOnes(base / 0x1000, 20);
    LowSmall(base / 0x1000, 20);
    assert Clip(base) == base;
  }

  /** What the comparison sees of a page number: its block, in the low 4 GiB. */
  lemma ComparedBlock(page: nat, j: nat)
    requires j <= 20
    ensures And(page, Shl(Ones(20 - j), j)) == Shl(Shr(Low(page, 20), j), j)
  {
    AndShl(page, Ones(20 - j), j);
    AndOnes(Shr(page, j), 20 - j);
    LowShr(page, j, 20);
  }

  /** For every page-sized or larger power of two and every aligned base below 4 GiB, the pair the
      driver programs matches an address exactly when the low 32 bits of the address lie in the range.
      The mask has no bits above bit 31, so the bits of the address above them play no part. */
  lemma CoverageExact(base: Reg, size: Reg, j: nat, memType: nat, a: Reg)
    requires IsSize(size, j) && Aligned(base, j) && memType < 0x100
    ensures Matches(BaseFor(base, memType), MaskFor(size), a) <==> InRange(Low32(a), base, size)
  {
    hide MaskFor, BaseFor, ValidBit, And, Low, Ones, Shl;
    var q: nat :| base == 0x1000 * Shl(q, j);
    MaskPages(size, j);
    BasePages(base, memType);
    if j <= 20 {
      BlockCoverage(Low(a / 0x1000, 20), base / 0x1000, q, j);
      ComparedBlock(a / 0x1000, j);
      ComparedBlock(base / 0x1000, j);
    } else {
      HugeSize(base, q, j);
      LowBound(a / 0x1000, 20);
      AndZero(a / 0x1000);
      AndZero(base / 0x1000);
    }
  }

  /** Two page numbers fall into the same block exactly when the first is in the block of the second. */
  lemma BlockCoverage(page: nat, basePage: nat, q: nat, j: nat)
    requires basePage == Shl(q, j)
    ensures Shl(Shr(page, j), j) == Shl(Shr(basePage, j), j) <==> basePage <= page < basePage + Shl(1, j)
  {
    hide Shl, Shr;
    ShlInjective(Shr(page, j), Shr(basePage, j), j);
    Positive(j);
    ShlPlusOne(q, j);
    Block(basePage, q, j);
    Block(page, q, j);
  }

  lemma AndZero(x: nat)
    ensures And(x, 0) == 0
  {}

  lemma {:induction false} LowBound(x: nat, m: nat)
    ensures Low(x, m) < Shl(1, m)
  {
    if m > 0 {
      LowBound(x / 2, m - 1);
    }
  }

  /** A range of more than 4 GiB can only start at zero, and holds every address below 4 GiB. */
  lemma HugeSize(base: Reg, q: nat, j: nat)
    requires j > 20 && base == 0x1000 * Shl(q, j) && base < TWO_TO_32
    ensures base == 0 && Shl(1, 20) <= Shl(1, j) && Shl(1, 20) == 0x100000
  {
    TwentyOnes();
    ShlGrows(20, j);
    if q > 0 {
      ShlAtLeast(q, j);
    } else {
      ShlZero(j);
    }
  }

  lemma {:induction false} ShlZero(j: nat)
    ensures Shl(0, j) == 0
  {
    if j > 0 {
      ShlZero(j - 1);
    }
  }

  lemma {:induction false} ShlGrows(i: nat, j: nat)
    requires i <= j
    ensures Shl(1, i) <= Shl(1, j)
    decreases j
  {
    if i < j {
      ShlGrows(i, j - 1);
    }
  }

  lemma {:induction false} ShlAtLeast(q: nat, j: nat)
    requires q > 0
    ensures Shl(1, j) <= Shl(q, j)
    decreases j
  {
    if j > 0 {
      ShlAtLeast(q, j - 1);
    }
  }

  /** Below 4 GiB the pair covers exactly the range asked for. */
  lemma CoverageBelow4G(base: Reg, size: Reg, j: nat, memType: nat, a: Reg)
    requires IsSize(size, j) && Aligned(base, j) && memType < 0x100 && a < TWO_TO_32
    ensures Matches(BaseFor(base, memType), MaskFor(size), a) <==> InRange(a, base, size)
  {
    hide Matches, BaseFor, MaskFor, Low, Ones, Shl, IsSize, Aligned;
    CoverageExact(base, size, j, memType, a);
    TwentyOnes();
    LowSmall(a / 0x1000, 20);
  }

  /** Above 4 GiB it covers more: the range repeats every 4 GiB. */
  lemma CoverageRepeats(base: Reg, size: Reg, j: nat, memType: nat, a: Reg)
    requires IsSize(size, j) && Aligned(base, j) && memType < 0x100
    requires InRange(a, base, size) && a < TWO_TO_32
    ensures Matches(BaseFor(base, memType), MaskFor(size), a + TWO_TO_32)
  {
    hide Matches, BaseFor, MaskFor, Low, Ones, Shl, IsSize, Aligned;
    CoverageExact(base, size, j, memType, a + TWO_TO_32);
    TwentyOnes();
    LowSmall(a / 0x1000, 20);
    LowPeriodic(a / 0x1000, 20);
    assert (a + TWO_TO_32) / 0x1000 == a / 0x1000 + 0x100000;
  }

  lemma {:induction false} LowPeriodic(x: nat, m: nat)
    ensures Low(x + Shl(1, m), m) == Low(x, m)
  {
    if m > 0 {
      LowPeriodic(x / 2, m - 1);
      assert (x + Shl(1, m)) / 2 == x / 2 + Shl(1, m - 1);
    }
  }

  // ---------- The registers and the driver's copy ----------

  const MAX_SHADOW := 16

  /** mtrr_entry_t */
  datatype Entry = Entry(base: Reg, mask: Reg, memType: nat, valid: bool)

  /** A write to a model-specific register. */
  datatype MsrWrite =
    | DefType(value: Reg)
    | PhysBase(index: nat, value: Reg)
    | PhysMask(index: nat, value: Reg)

  function TypeOf(physBase: Reg): nat {
    physBase % 0x100
  }

  /** The copy's valid flag is the register's valid bit, and a valid copy holds the register's range. */
  predicate Agrees(e: Entry, physBase: Reg, physMask: Reg) {
    && (e.valid <==> ValidBit(physMask))
    && (e.valid ==> e.base == Clip(physBase) && e.mask == Clip(physMask) && e.memType == TypeOf(physBase))
  }

  lemma {:induction false} AndIdempotent(x: nat, y: nat)
    ensures And(And(x, y), y) == And(x, y)
    decreases y
  {
    if y > 0 {
      AndIdempotent(x / 2, y / 2);
    }
  }

  /** Clipping looks at whole pages only, and a clipped value stays as it is. */
  lemma ClipClip(x: nat, low: nat)
    requires low < 0x1000
    ensures Clip(x) + low < TWO_TO_64 && Clip(Clip(x) + low) == Clip(x)
  {
    hide And;
    AndIdempotent(x / 0x1000, 0xFFFFF);
    assert (Clip(x) + low) / 0x1000 == And(x / 0x1000, 0xFFFFF);
  }

  lemma ProgrammedAgrees(base: Reg, size: Reg, memType: nat)
    requires memType < 0x100
    ensures Agrees(Entry(Clip(base), Clip(MaskFor(size)), memType, true), BaseFor(base, memType), MaskFor(size))
  {
    hide And, ValidBit, TypeOf, Clip;
    ClipClip(base, memType);
    ClippedBits(base, memType);
    ClippedBits((TWO_TO_64 - size) % TWO_TO_64, 0);
  }

  lemma ClippedBits(x: nat, memType: nat)
    requires memType < 0x100
    ensures ValidBit(Clip(x) + 0x800) && TypeOf(Clip(x) + memType) == memType
  {
    hide And;
    var c := And(x / 0x1000, 0xFFFFF);
    PageBits(c, memType);
  }

  lemma PageBits(c: nat, memType: nat)
    requires memType < 0x100
    ensures (0x1000 * c + 0x800) / 0x800 % 2 == 1 && (0x1000 * c + memType) % 0x100 == memType
  {
    assert (0x1000 * c + 0x800) / 0x800 == 2 * c + 1;
    assert (0x100 * (0x10 * c) + memType) % 0x100 == memType;
  }

  lemma ClearedAgrees(e: Entry)
    ensures Agrees(e.(valid := false), 0, 0)
  {}

  class MtrrDriver {
    // The processor's registers, and every write made to them.
    const physBase: array<Reg>
    const physMask: array<Reg>
    var defType: Reg
    var writes: seq<MsrWrite>
    // cache_info_t
    const mtrrSupported: bool
    const numVariable: nat
    const shadow: array<Entry>

    ghost predicate Shaped()
      reads this
    {
      && numVariable <= 16 && shadow.Length == 16
      && physBase.Length == numVariable && physMask.Length == numVariable && physBase != physMask
    }

    ghost predicate Valid()
      reads this, physBase, physMask, shadow
    {
      Shaped() && forall i :: 0 <= i < numVariable ==> Agrees(shadow[i], physBase[i], physMask[i])
    }

    /** Whatever the firmware left in the registers. */
    constructor (supported: bool, bases: seq<Reg>, masks: seq<Reg>, deflt: Reg)
      requires |bases| == |masks| <= MAX_SHADOW
      ensures Shaped() && mtrrSupported == supported && numVariable == |bases|
      ensures physBase[..] == bases && physMask[..] == masks && defType == deflt && writes == []
    {
      physBase := new Reg[|bases|](i requires 0 <= i < |bases| => bases[i]);
      physMask := new Reg[|masks|](i requires 0 <= i < |masks| => masks[i]);
      defType, writes, mtrrSupported, numVariable := deflt, [], supported, |bases|;
      shadow := new Entry[MAX_SHADOW](_ => Entry(0, 0, 0, false));
    }

    /** cache_init_mtrrs */
    method Init()
      requires Shaped()
      modifies shadow
      ensures mtrrSupported ==> Valid()
      ensures !mtrrSupported ==> shadow[..] == old(shadow[..])
    {
      hide Clip, TypeOf, ValidBit;
      if !mtrrSupported { return; }
      var i := 0;
      while i < numVariable && i < MAX_SHADOW
        invariant i <= numVariable
        invariant forall k :: 0 <= k < i ==> Agrees(shadow[k], physBase[k], physMask[k])
      {
        var base, mask := physBase[i], physMask[i];
        shadow[i] := Entry(Clip(base), Clip(mask), TypeOf(base), ValidBit(mask));
        i := i + 1;
      }
    }

    method WriteDefType(value: Reg)
      modifies this`defType, this`writes
      ensures defType == value && writes == old(writes) + [DefType(value)]
    {
      defType := value;
      writes := writes + [DefType(value)];
    }

    method WritePair(reg: nat, base: Reg, mask: Reg)
      requires Shaped() && reg < numVariable
      modifies this`writes, physBase, physMask
      ensures physBase[..] == old(physBase[..])[reg := base] && physMask[..] == old(physMask[..])[reg := mask]
      ensures writes == old(writes) + [PhysBase(reg, base), PhysMask(reg, mask)]
    {
      physBase[reg] := base;
      writes := writes + [PhysBase(reg, base)];
      physMask[reg] := mask;
      writes := writes + [PhysMask(reg, mask)];
    }

    /** cache_setup_mtrr.  The pair is changed only while the registers are disabled, the default-type
        register is restored, and no other pair and no other entry of the copy changes. */
    method Setup(reg: nat, base: Reg, size: Reg, memType: nat) returns (ok: bool)
      requires Valid() && memType < 0x100
      modifies this`defType, this`writes, physBase, physMask, shadow
      ensures Valid() && defType == old(defType)
      ensures ok <==> mtrrSupported && reg < numVariable
      ensures ok ==>
        && physBase[..] == old(physBase[..])[reg := BaseFor(base, memType)]
        && physMask[..] == old(physMask[..])[reg := MaskFor(size)]
        && shadow[..] == old(shadow[..])[reg := Entry(Clip(base), Clip(MaskFor(size)), memType, true)]
        && writes == old(writes) + Reprogrammed(defType, reg, BaseFor(base, memType), MaskFor(size))
      ensures !ok ==>
        && physBase[..] == old(physBase[..]) && physMask[..] == old(physMask[..])
        && shadow[..] == old(shadow[..]) && writes == old(writes)
    {
      hide Clip, TypeOf, ValidBit, MaskFor, BaseFor, Agrees, Disabled;
      if !mtrrSupported || reg >= numVariable { return false; }
      var mask := MaskFor(size);
      var deftype := defType;
      WriteDefType(Disabled(deftype));
      WritePair(reg, BaseFor(base, memType), mask);
      WriteDefType(deftype);
      ProgrammedAgrees(base, size, memType);
      shadow[reg] := Entry(Clip(base), Clip(mask), memType, true);
      ok := true;
    }

    /** cache_clear_mtrr.  Only the valid flag of the copy is cleared. */
    method Clear(reg: nat)
      requires Valid()
      modifies this`defType, this`writes, physBase, physMask, shadow
      ensures Valid() && defType == old(defType)
      ensures mtrrSupported && reg < numVariable ==>
        && physBase[..] == old(physBase[..])[reg := 0] && physMask[..] == old(physMask[..])[reg := 0]
        && shadow[..] == old(shadow[..])[reg := old(shadow[reg]).(valid := false)]
        && writes == old(writes) + Reprogrammed(defType, reg, 0, 0)
      ensures !(mtrrSupported && reg < numVariable) ==>
        && physBase[..] == old(physBase[..]) && physMask[..] == old(physMask[..])
        && shadow[..] == old(shadow[..]) && writes == old(writes)
    {
      hide Agrees, Disabled;
      if !mtrrSupported || reg >= numVariable { return; }
      var deftype := defType;
      WriteDefType(Disabled(deftype));
      WritePair(reg, 0, 0);
      WriteDefType(deftype);
      ClearedAgrees(shadow[reg]);
      shadow[reg] := shadow[reg].(valid := false);
    }

    /** The four getters.  For a valid pair they report what the registers hold. */
    method Get(reg: nat) returns (base: Reg, mask: Reg, memType: nat, valid: bool)
      requires Valid()
      ensures reg >= numVariable ==> base == 0 && mask == 0 && memType == 0 && !valid
      ensures reg < numVariable ==> (valid <==> ValidBit(physMask[reg]))
      ensures reg < numVariable && valid ==>
        base == Clip(physBase[reg]) && mask == Clip(physMask[reg]) && memType == TypeOf(physBase[reg])
    {
      hide Clip, TypeOf, ValidBit;
      if reg >= numVariable { return 0, 0, 0, false; }
      assert Agrees(shadow[reg], physBase[reg], physMask[reg]);
      var e := shadow[reg];
      base, mask, memType, valid := e.base, e.mask, e.memType, e.valid;
    }
  }

  /** The writes that change a pair: disable, the pair, then the default-type register as it was. */
  function Reprogrammed(deftype: Reg, reg: nat, base: Reg, mask: Reg): seq<MsrWrite> {
    [DefType(Disabled(deftype)), PhysBase(reg, base), PhysMask(reg, mask), DefType(deftype)]
  }

  /** deftype & ~(1 << 11) */
  function Disabled(deftype: Reg): Reg {
    if deftype / 0x800 % 2 == 1 then deftype - 0x800 else deftype
  }

  /** x & ~(1 << j), for any bit. */
  function Cleared(x: nat, j: nat): nat {
    if j == 0 then x - x % 2 else 2 * Cleared(x / 2, j - 1) + x % 2
  }

  lemma {:induction false} ClearedBits(x: nat, j: nat, k: nat)
    ensures Shr(Cleared(x, j), k) % 2 == if k == j then 0 else Shr(x, k) % 2
  {
    if j == 0 {
      assert (x - x % 2) / 2 == x / 2;
    } else {
      assert Cleared(x, j) / 2 == Cleared(x / 2, j - 1);
      if k > 0 {
        ClearedBits(x / 2, j - 1, k - 1);
      }
    }
  }

  /** Disabling clears the enable bit, bit 11 of the default-type register, and keeps every other bit. */
  lemma DisabledBits(deftype: Reg, k: nat)
    ensures Shr(Disabled(deftype), k) % 2 == if k == 11 then 0 else Shr(deftype, k) % 2
  {
    hide Shr;
    ClearedEleven(deftype);
    ClearedBits(deftype, 11, k);
  }

  lemma ClearedEleven(x: Reg)
    ensures Disabled(x) == Cleared(x, 11)
  {
    hide Disabled;
    var x4, x8 := x / 16, x / 256;
    assert Cleared(x8, 3) == 8 * (x8 / 8 - x8 / 8 % 2) + x8 % 8 by { ClearedThree(x8); }
    ClearedFour(x4, 7);
    ClearedFour(x, 11);
    assert x4 / 16 == x8 && 16 * (x4 % 16) + x % 16 == x % 256;
    DisabledIs(x);
  }

  lemma ClearedThree(x: nat)
    ensures Cleared(x, 3) == 8 * (x / 8 - x / 8 % 2) + x % 8
  {
    assert x / 2 / 2 / 2 == x / 8;
    assert Cleared(x / 2 / 2 / 2, 0) == x / 8 - x / 8 % 2;
    assert Cleared(x / 2 / 2, 1) == 2 * (x / 8 - x / 8 % 2) + x / 4 % 2;
    assert Cleared(x / 2, 2) == 4 * (x / 8 - x / 8 % 2) + 2 * (x / 4 % 2) + x / 2 % 2;
  }

  lemma ClearedFour(x: nat, j: nat)
    requires j >= 4
    ensures Cleared(x, j) == 16 * Cleared(x / 16, j - 4) + x % 16
  {
    assert x / 2 / 2 / 2 / 2 == x / 16;
    assert Cleared(x / 8, j - 3) == 2 * Cleared(x / 16, j - 4) + x / 8 % 2;
    assert Cleared(x / 4, j - 2) == 2 * Cleared(x / 8, j - 3) + x / 4 % 2;
    assert Cleared(x / 2, j - 1) == 2 * Cleared(x / 4, j - 2) + x / 2 % 2;
  }

  lemma DisabledIs(x: Reg)
    ensures Disabled(x) == 0x100 * (8 * (x / 0x100 / 8 - x / 0x100 / 8 % 2) + x / 0x100 % 8) + x % 0x100
  {
    assert x / 0x100 / 8 == x / 0x800;
  }
}
