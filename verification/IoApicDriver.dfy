/** The I/O APIC driver (src/drivers/ioapic.c): a redirection table kept twice, in the controllers'
    registers and in memory, addressed by global system interrupt (GSI). */
module IoApicDriver {
  import opened MachineTypes
  import opened Madt

  const MAX_CONTROLLERS := 8
  const TABLE_SIZE := 24
  const DEFAULT_ADDRESS := 0xFEC00000
  const VER := 0x01
  const REDTBL_BASE := 0x10

  // ---------- Redirection entries ----------

  /** ioapic_redir_entry_t */
  datatype Entry = Entry(low: bv32, high: bv32)

  /** What an entry says, field by field; it has a field for every bit. */
  datatype Route = Route(vector: bv8, delivery: bv8, logical: bool, pending: bool, activeLow: bool,
                         remote: bool, level: bool, masked: bool, reserved: bv32,
                         destination: bv8, highRest: bv32)

  function Bit(w: bv32, mask: bv32): bool {
    w & mask != 0
  }

  function Vector(low: bv32): bv8 {
    (low & 0xFF) as bv8
  }

  function Delivery(low: bv32): bv8 {
    ((low >> 8) & 7) as bv8
  }

  function Destination(high: bv32): bv8 {
    ((high >> 24) & 0xFF) as bv8
  }

  function Reserved(low: bv32): bv32 {
    low & 0xFFFE0000
  }

  function HighRest(high: bv32): bv32 {
    high & 0xFFFFFF
  }

  function Meaning(e: Entry): Route {
    Route(Vector(e.low), Delivery(e.low), Bit(e.low, 0x800), Bit(e.low, 0x1000),
          Bit(e.low, 0x2000), Bit(e.low, 0x4000), Bit(e.low, 0x8000), Bit(e.low, 0x10000),
          Reserved(e.low), Destination(e.high), HighRest(e.high))
  }

  /** No two entries say the same. */
  lemma MeaningInjective(e: Entry, f: Entry)
    requires Meaning(e) == Meaning(f)
    ensures e == f
  {
    hide Vector, Delivery, Destination, Bit, Reserved, HighRest;
    LowInjective(e.low, f.low);
    HighInjective(e.high, f.high);
  }

  lemma LowInjective(x: bv32, y: bv32)
    requires Vector(x) == Vector(y) && Delivery(x) == Delivery(y)
    requires Bit(x, 0x800) == Bit(y, 0x800) && Bit(x, 0x1000) == Bit(y, 0x1000) && Bit(x, 0x2000) == Bit(y, 0x2000)
    requires Bit(x, 0x4000) == Bit(y, 0x4000) && Bit(x, 0x8000) == Bit(y, 0x8000) && Bit(x, 0x10000) == Bit(y, 0x10000)
    requires Reserved(x) == Reserved(y)
    ensures x == y
  {}

  lemma HighInjective(x: bv32, y: bv32)
    requires Destination(x) == Destination(y) && HighRest(x) == HighRest(y)
    ensures x == y
  {}

  // The words the driver writes.

  /** The masked entry of initialization, for vector 0x20 + pin. */
  function InitialEntry(pin: nat): Entry
    requires pin < TABLE_SIZE
  {
    Entry(0x10000 | (0x20 + pin) as bv32, 0)
  }

  function IrqEntry(vector: bv8, destination: bv8, level: bool, activeLow: bool): Entry {
    Entry(vector as bv32 | (if level then 0x8000 else 0) | (if activeLow then 0x2000 else 0),
          (destination as bv32) << 24)
  }

  function Masked(e: Entry): Entry {
    e.(low := e.low | 0x10000)
  }

  function Unmasked(e: Entry): Entry {
    e.(low := e.low & 0xFFFEFFFF)
  }

  function WithDelivery(e: Entry, mode: bv8): Entry {
    e.(low := (e.low & 0xFFFFF8FF) | ((mode as bv32) << 8))
  }

  function WithDestinationMode(e: Entry, logical: bool): Entry {
    e.(low := if logical then e.low | 0x800 else e.low & 0xFFFFF7FF)
  }

  // What the calls ask for.

  datatype Request =
    | SetIrq(vector: bv8, destination: bv8, level: bool, activeLow: bool)
    | Mask
    | Unmask
    | DeliveryMode(mode: bv8)
    | DestinationMode(logical: bool)

  function Plain(vector: bv8, destination: bv8, level: bool, activeLow: bool, masked: bool): Route {
    Route(vector, 0, false, false, activeLow, false, level, masked, 0, destination, 0)
  }

  /** A request on the fields.  A delivery mode above 7 spills into the five fields above its own. */
  function Effect(request: Request, r: Route): Route {
    match request
    case SetIrq(v, d, level, activeLow) => Plain(v, d, level, activeLow, false)
    case Mask => r.(masked := true)
    case Unmask => r.(masked := false)
    case DeliveryMode(m) => Deliver(m, r)
    case DestinationMode(logical) => r.(logical := logical)
  }

  function Deliver(m: bv8, r: Route): Route {
    r.(delivery := m & 7, logical := r.logical || m & 8 != 0, pending := r.pending || m & 16 != 0,
       activeLow := r.activeLow || m & 32 != 0, remote := r.remote || m & 64 != 0,
       level := r.level || m & 128 != 0)
  }

  lemma DeliverSmall(m: bv8, r: Route)
    requires m <= 7
    ensures Deliver(m, r) == r.(delivery := m)
  {
    SmallMode(m);
  }

  lemma InitialMeaning(pin: nat)
    requires pin < TABLE_SIZE
    ensures Meaning(InitialEntry(pin)) == Plain((0x20 + pin) as bv8, 0, false, false, true)
  {
  }

  lemma IrqMeaning(v: bv8, d: bv8, level: bool, activeLow: bool)
    ensures Meaning(IrqEntry(v, d, level, activeLow)) == Plain(v, d, level, activeLow, false)
  {}

  lemma MaskedMeaning(e: Entry)
    ensures Meaning(Masked(e)) == Effect(Mask, Meaning(e))
    ensures Meaning(Unmasked(e)) == Effect(Unmask, Meaning(e))
  {}

  /** The words as the registers hold them. */
  lemma EntryWords()
    ensures IrqEntry(0x31, 0x02, true, true) == Entry(0xA031, 0x02000000)
    ensures InitialEntry(5) == Entry(0x10025, 0) && Masked(Entry(0xA031, 0)) == Entry(0x1A031, 0)
    ensures WithDelivery(Entry(0xA031, 0), 5) == Entry(0xA531, 0)
    ensures WithDestinationMode(Entry(0xA031, 0), true) == Entry(0xA831, 0)
  {}

  lemma DeliveryMeaning(e: Entry, mode: bv8)
    ensures Meaning(WithDelivery(e, mode)) == Effect(DeliveryMode(mode), Meaning(e))
  {}

  lemma DestinationModeMeaning(e: Entry, logical: bool)
    ensures Meaning(WithDestinationMode(e, logical)) == Effect(DestinationMode(logical), Meaning(e))
  {}

  /** Setting the delivery mode leaves the other fields of every entry alone exactly when the mode is at
      most 7. */
  lemma DeliveryModeIsolated(mode: bv8)
    ensures mode <= 7 <==>
            forall r: Route :: Effect(DeliveryMode(mode), r) == r.(delivery := Effect(DeliveryMode(mode), r).delivery)
  {
    SmallMode(mode);
    if mode > 7 {
      SpillsInto(mode, Plain(0, 0, false, false, false));
    }
  }

  lemma SpillsInto(mode: bv8, clear: Route)
    requires mode & 8 != 0 || mode & 16 != 0 || mode & 32 != 0 || mode & 64 != 0 || mode & 128 != 0
    requires !clear.logical && !clear.pending && !clear.activeLow && !clear.remote && !clear.level
    ensures Effect(DeliveryMode(mode), clear) != clear.(delivery := Effect(DeliveryMode(mode), clear).delivery)
  {}

  lemma SmallMode(mode: bv8)
    ensures mode <= 7 <==> mode & 8 == 0 && mode & 16 == 0 && mode & 32 == 0 && mode & 64 == 0 && mode & 128 == 0
    ensures mode <= 7 <==> mode & 7 == mode
  {}

  // ---------- Registers and the copy ----------

  datatype Reg = Reg(base: nat, index: nat)

  /** ioapic_controller_t */
  datatype Controller = Controller(base: nat, id: Octet, version: bv8, entries: nat, enabled: bool, gsiBase: nat,
                                   table: seq<Entry>)

  /** The register's value; a register never written holds 0. */
  function At(hw: map<Reg, bv32>, r: Reg): bv32 {
    if r in hw then hw[r] else 0
  }

  function LowReg(base: nat, pin: nat): Reg {
    Reg(base, REDTBL_BASE + pin * 2)
  }

  function HighReg(base: nat, pin: nat): Reg {
    Reg(base, REDTBL_BASE + pin * 2 + 1)
  }

  /** ioapic_read_redirection_entry */
  function ReadEntry(hw: map<Reg, bv32>, base: nat, pin: nat): Entry {
    Entry(At(hw, LowReg(base, pin)), At(hw, HighReg(base, pin)))
  }

  /** ioapic_write_redirection_entry */
  function WriteEntry(hw: map<Reg, bv32>, base: nat, pin: nat, e: Entry): map<Reg, bv32> {
    hw[LowReg(base, pin) := e.low][HighReg(base, pin) := e.high]
  }

  /** The registers of pin `p`: 0x10 + 2p holds the low word and 0x11 + 2p the high word, nothing else is
      written, and reading takes the same two. */
  lemma EntryRegisters(hw: map<Reg, bv32>, base: nat, pin: nat, e: Entry)
    ensures
      var hw' := WriteEntry(hw, base, pin, e);
      && At(hw', Reg(base, 0x10 + 2 * pin)) == e.low && At(hw', Reg(base, 0x11 + 2 * pin)) == e.high
      && forall r: Reg :: r != Reg(base, 0x10 + 2 * pin) && r != Reg(base, 0x11 + 2 * pin) ==> At(hw', r) == At(hw, r)
    ensures ReadEntry(hw, base, pin) == Entry(At(hw, Reg(base, 0x10 + 2 * pin)), At(hw, Reg(base, 0x11 + 2 * pin)))
  {}

  lemma ReadWritten(hw: map<Reg, bv32>, base: nat, pin: nat, e: Entry)
    ensures ReadEntry(WriteEntry(hw, base, pin, e), base, pin) == e
    ensures forall b, p :: b != base || p != pin ==>
              ReadEntry(WriteEntry(hw, base, pin, e), b, p) == ReadEntry(hw, b, p)
    ensures forall r: Reg :: r.base != base || r.index < REDTBL_BASE ==>
              At(WriteEntry(hw, base, pin, e), r) == At(hw, r)
  {}

  /** The comparison of ioapic_find_controller_for_gsi, with its 32-bit end. */
  predicate Owns(c: Controller, gsi: nat) {
    c.gsiBase <= gsi <= (c.gsiBase + c.entries - 1) % TWO_TO_32
  }

  /** The first controller that owns the interrupt, or |cs|. */
  function Locate(cs: seq<Controller>, gsi: nat): (i: nat)
    ensures i <= |cs|
    ensures i < |cs| ==> Owns(cs[i], gsi)
    ensures forall k :: 0 <= k < i ==> !Owns(cs[k], gsi)
  {
    if cs == [] || Owns(cs[0], gsi) then 0 else 1 + Locate(cs[1..], gsi)
  }

  lemma {:induction false} LocateIs(cs: seq<Controller>, gsi: nat, i: nat)
    requires i <= |cs| && (i < |cs| ==> Owns(cs[i], gsi))
    requires forall k :: 0 <= k < i ==> !Owns(cs[k], gsi)
    ensures Locate(cs, gsi) == i
  {
    hide Owns;
    if i > 0 {
      assert !Owns(cs[0], gsi);
      assert forall k :: 0 <= k < |cs| - 1 ==> cs[1..][k] == cs[k + 1];
      LocateIs(cs[1..], gsi, i - 1);
    }
  }

  /** Controllers at addresses of their own, with at most as many pins as a table has room for. */
  predicate Layout(cs: seq<Controller>) {
    && Sized(cs)
    && forall i, j :: 0 <= i < j < |cs| ==> cs[i].base != cs[j].base
  }

  predicate Sized(cs: seq<Controller>) {
    forall i :: 0 <= i < |cs| ==> LayoutOf(cs[i])
  }

  predicate LayoutOf(c: Controller) {
    |c.table| == 24 && 1 <= c.entries <= 24 && c.gsiBase < TWO_TO_32
  }

  /** The driver's tables are the registers. */
  ghost predicate Shadows(hw: map<Reg, bv32>, cs: seq<Controller>)
    requires Sized(cs)
  {
    forall i, p :: 0 <= i < |cs| && 0 <= p < cs[i].entries ==> cs[i].table[p] == ReadEntry(hw, cs[i].base, p)
  }

  /** An owner's pin is one of its entries, even where its range would pass the end of the 32-bit numbers. */
  lemma OwnedPin(c: Controller, gsi: nat)
    requires LayoutOf(c) && Owns(c, gsi)
    ensures 0 <= gsi - c.gsiBase < c.entries
  {}

  /** The interrupt is one of `pins` from `base` on, in a range that stays within the 32-bit numbers. */
  predicate InRange(base: nat, pins: nat, gsi: nat) {
    base + pins <= 0x1_0000_0000 && base <= gsi < base + pins
  }

  /** A controller owns exactly the interrupts of its range, and none if the range passes the end of the
      32-bit numbers. */
  lemma OwnsExactly(c: Controller, gsi: nat)
    requires LayoutOf(c)
    ensures Owns(c, gsi) <==> InRange(c.gsiBase, c.entries, gsi)
  {}

  /** The search finds the first controller whose range the interrupt is in. */
  lemma LocateExactly(cs: seq<Controller>, gsi: nat)
    requires Sized(cs)
    ensures
      var i := Locate(cs, gsi);
      && (i < |cs| ==> InRange(cs[i].gsiBase, cs[i].entries, gsi))
      && forall k :: 0 <= k < i ==> !InRange(cs[k].gsiBase, cs[k].entries, gsi)
  {
    hide Owns, InRange, LayoutOf;
    forall k | 0 <= k < |cs| ensures Owns(cs[k], gsi) <==> InRange(cs[k].gsiBase, cs[k].entries, gsi) {
      assert LayoutOf(cs[k]);
      OwnsExactly(cs[k], gsi);
    }
  }

  /** How an interrupt is routed, according to the hardware. */
  function Routed(hw: map<Reg, bv32>, cs: seq<Controller>, gsi: nat): Option<Route> {
    var i := Locate(cs, gsi);
    if i == |cs| then None else Some(Meaning(ReadEntry(hw, cs[i].base, gsi - cs[i].gsiBase)))
  }

  function Update(hit: bool, request: Request, r: Option<Route>): Option<Route> {
    if hit && r.Some? then Some(Effect(request, r.value)) else r
  }

  /** The driver's two assignments, to the hardware and to its copy. */
  function Stored(cs: seq<Controller>, i: nat, pin: nat, e: Entry): seq<Controller>
    requires i < |cs| && pin < |cs[i].table|
  {
    cs[i := cs[i].(table := cs[i].table[pin := e])]
  }

  /** The same controllers, with whatever tables. */
  predicate SameSetup(before: seq<Controller>, after: seq<Controller>) {
    |after| == |before| && forall i :: 0 <= i < |before| ==> after[i] == before[i].(table := after[i].table)
  }

  lemma SameSetupTransitive(a: seq<Controller>, b: seq<Controller>, c: seq<Controller>)
    requires SameSetup(a, b) && SameSetup(b, c)
    ensures SameSetup(a, c)
  {
    assert forall i :: 0 <= i < |a| ==> b[i] == a[i].(table := b[i].table);
  }

  lemma StartSetup(cs: seq<Controller>)
    ensures SameSetup(cs, cs)
  {}

  lemma StoredSetup(cs: seq<Controller>, i: nat, pin: nat, e: Entry)
    requires i < |cs| && pin < |cs[i].table|
    ensures SameSetup(cs, Stored(cs, i, pin, e))
  {}

  lemma StoredLayout(cs: seq<Controller>, i: nat, pin: nat, e: Entry)
    requires Layout(cs) && i < |cs| && pin < TABLE_SIZE && |cs[i].table| == TABLE_SIZE
    ensures Layout(Stored(cs, i, pin, e))
  {
    var after := Stored(cs, i, pin, e);
    assert LayoutOf(cs[i]);
    forall k | 0 <= k < |cs| ensures LayoutOf(after[k]) && after[k].base == cs[k].base {
      assert LayoutOf(cs[k]);
    }
  }

  lemma StoredLocate(cs: seq<Controller>, i: nat, pin: nat, e: Entry, gsi: nat)
    requires i < |cs| && pin < |cs[i].table|
    ensures Locate(Stored(cs, i, pin, e), gsi) == Locate(cs, gsi)
  {
    var after := Stored(cs, i, pin, e);
    assert forall k :: 0 <= k < |cs| ==> (Owns(after[k], gsi) <==> Owns(cs[k], gsi));
    LocateIs(after, gsi, Locate(cs, gsi)) by {
      hide Locate, Owns, Stored;
    }
  }

  lemma StoredSized(cs: seq<Controller>, i: nat, pin: nat, e: Entry)
    requires Sized(cs) && i < |cs| && pin < TABLE_SIZE && |cs[i].table| == TABLE_SIZE
    ensures Sized(Stored(cs, i, pin, e))
  {
    var after := Stored(cs, i, pin, e);
    assert LayoutOf(cs[i]);
    forall k | 0 <= k < |cs| ensures LayoutOf(after[k]) {
      assert LayoutOf(cs[k]);
    }
  }

  /** Writing one pin's entry to both leaves every table equal to the registers exactly when each other
      controller at the same address already holds this entry for this pin. */
  lemma StoreKeepsShadowsIff(hw: map<Reg, bv32>, cs: seq<Controller>, i: nat, pin: nat, e: Entry)
    requires Sized(cs) && Shadows(hw, cs) && i < |cs| && pin < cs[i].entries <= TABLE_SIZE == |cs[i].table|
    ensures Sized(Stored(cs, i, pin, e))
    ensures Shadows(WriteEntry(hw, cs[i].base, pin, e), Stored(cs, i, pin, e)) <==>
            forall k :: 0 <= k < |cs| && k != i && cs[k].base == cs[i].base && pin < cs[k].entries <= |cs[k].table| ==>
                          cs[k].table[pin] == e
  {
    hide ReadEntry, WriteEntry;
    StoredSized(cs, i, pin, e);
    ReadWritten(hw, cs[i].base, pin, e);
    var hw', after := WriteEntry(hw, cs[i].base, pin, e), Stored(cs, i, pin, e);
    forall k, p | 0 <= k < |after| && 0 <= p < after[k].entries
      ensures LayoutOf(cs[k])
      ensures after[k].table[p] == ReadEntry(hw', after[k].base, p) <==>
              (k != i && cs[k].base == cs[i].base && p == pin ==> cs[k].table[pin] == e)
    {
      assert LayoutOf(cs[k]);
    }
    if Shadows(hw', after) {
      forall k | 0 <= k < |cs| && k != i && cs[k].base == cs[i].base && pin < cs[k].entries <= |cs[k].table|
        ensures cs[k].table[pin] == e
      {
        assert after[k].table[pin] == ReadEntry(hw', after[k].base, pin);
      }
    }
  }

  /** Another controller at the same address has the pin. */
  predicate PinShared(cs: seq<Controller>, i: nat, pin: nat)
    requires i < |cs|
  {
    exists k :: 0 <= k < |cs| && k != i && cs[k].base == cs[i].base && pin < cs[k].entries
  }

  /** Whatever is written to a pin, the tables stay equal to the registers, exactly when no other controller
      at that address has the pin. */
  lemma EveryStoreKeepsIff(hw: map<Reg, bv32>, cs: seq<Controller>, i: nat, pin: nat)
    requires Sized(cs) && Shadows(hw, cs) && i < |cs| && pin < cs[i].entries <= TABLE_SIZE == |cs[i].table|
    ensures forall e :: Sized(Stored(cs, i, pin, e))
    ensures (forall e :: Shadows(WriteEntry(hw, cs[i].base, pin, e), Stored(cs, i, pin, e))) <==>
            !PinShared(cs, i, pin)
  {
    hide ReadEntry, WriteEntry, Stored;
    forall e ensures Sized(Stored(cs, i, pin, e)) {
      StoredSized(cs, i, pin, e);
    }
    if PinShared(cs, i, pin) {
      var k :| 0 <= k < |cs| && k != i && cs[k].base == cs[i].base && pin < cs[k].entries;
      assert LayoutOf(cs[k]);
      var e := Entry(cs[k].table[pin].low ^ 1, 0);
      OtherWord(cs[k].table[pin].low);
      StoreKeepsShadowsIff(hw, cs, i, pin, e);
    } else {
      forall e ensures Shadows(WriteEntry(hw, cs[i].base, pin, e), Stored(cs, i, pin, e)) {
        StoreKeepsShadowsIff(hw, cs, i, pin, e);
      }
    }
  }

  lemma OtherWord(x: bv32)
    ensures x ^ 1 != x
  {}

  /** Writing one pin's entry to both keeps them equal and changes the routing of one interrupt only. */
  lemma StoreRoutes(hw: map<Reg, bv32>, cs: seq<Controller>, gsi: nat, e: Entry, g: nat)
    requires Layout(cs) && Locate(cs, gsi) < |cs|
    ensures
      var i := Locate(cs, gsi);
      var pin := gsi - cs[i].gsiBase;
      && 0 <= pin < cs[i].entries <= TABLE_SIZE && |cs[i].table| == TABLE_SIZE
      && var hw', cs' := WriteEntry(hw, cs[i].base, pin, e), Stored(cs, i, pin, e);
      && Routed(hw', cs', g) == if g == gsi then Some(Meaning(e)) else Routed(hw, cs, g)
  {
    hide Meaning, ReadEntry, WriteEntry, Owns, Locate;
    var i, j := Locate(cs, gsi), Locate(cs, g);
    assert LayoutOf(cs[i]);
    OwnedPin(cs[i], gsi);
    var pin := gsi - cs[i].gsiBase;
    ReadWritten(hw, cs[i].base, pin, e);
    StoredLocate(cs, i, pin, e, g);
    if j < |cs| {
      assert LayoutOf(cs[j]);
      OwnedPin(cs[j], g);
    }
  }

  // ---------- Detection ----------

  /** The detection loop comes to the end of the table or to eight controllers. */
  predicate DetectionEnds(mem: seq<Octet>) {
    Readable(mem) && EndsOrFills(mem, HEADER_SIZE, MAX_CONTROLLERS)
  }

  /** What ioapic_detect_controllers records: the first eight I/O APICs, and the default one only when there
      is no table or no I/O APIC in it.  The default keeps the identifier that the first slot held. */
  function Detected(madt: Option<seq<Octet>>, oldId: Octet): (found: seq<IoApic>)
    requires madt.Some? ==> DetectionEnds(madt.value)
    ensures 1 <= |found| <= MAX_CONTROLLERS
  {
    var listed := if madt.Some? then FirstIoApics(madt.value, HEADER_SIZE, MAX_CONTROLLERS) else [];
    if listed == [] then [IoApic(oldId, DEFAULT_ADDRESS, 0)] else listed
  }

  /** Wherever acpi_enumerate_io_apics comes to an end so does detection, and it records exactly the first
      eight of the I/O APICs reported there, or the default one when none is. */
  lemma DetectedAreFirstEight(mem: seq<Octet>, oldId: Octet)
    requires WalkEnds(mem)
    ensures DetectionEnds(mem)
    ensures
      var all := IoApics(mem, HEADER_SIZE);
      Detected(Some(mem), oldId) ==
        if all == [] then [IoApic(oldId, 0xFEC00000, 0)]
        else if |all| <= 8 then all else all[..8]
  {
    FirstOfAll(mem, HEADER_SIZE, MAX_CONTROLLERS);
  }

  predicate Describes(c: Controller, f: IoApic) {
    c.id == f.id && c.base == f.address && c.gsiBase == f.gsiBase && c.enabled && |c.table| == TABLE_SIZE
  }

  lemma NoTable(oldId: Octet)
    ensures Detected(None, oldId) == [IoApic(oldId, DEFAULT_ADDRESS, 0)]
  {}

  lemma DetectedIs(mem: seq<Octet>, oldId: Octet)
    requires DetectionEnds(mem)
    ensures
      var listed := FirstIoApics(mem, HEADER_SIZE, MAX_CONTROLLERS);
      Detected(Some(mem), oldId) == if listed == [] then [IoApic(oldId, DEFAULT_ADDRESS, 0)] else listed
  {}

  /** max_redirection_entries, in 8 bits. */
  function EntryCount(version: bv32): nat {
    (((version >> 16) & 0xFF) as nat + 1) % 0x100
  }

  /** Bits 16 to 23 of the version register hold one less than the number of pins. */
  lemma EntryCountIs(version: bv32, highest: bv32)
    requires highest <= 23 && version & 0x00FF0000 == highest << 16
    ensures EntryCount(version) == highest as nat + 1
  {
    assert (version >> 16) & 0xFF == highest;
    SmallNumber(highest);
  }

  lemma SmallNumber(x: bv32)
    requires x <= 23
    ensures x as nat <= 23
  {}

  /** What the hardware must be like for the driver's tables to hold it: controllers with 1 to 24 pins. */
  predicate Fits(found: seq<IoApic>, hw: map<Reg, bv32>) {
    forall i :: 0 <= i < |found| ==> FitsOne(found[i], hw)
  }

  /** The controllers are at addresses of their own. */
  predicate Apart(found: seq<IoApic>) {
    forall i, j :: 0 <= i < j < |found| ==> found[i].address != found[j].address
  }

  predicate FitsOne(f: IoApic, hw: map<Reg, bv32>) {
    f.gsiBase < TWO_TO_32 && 1 <= EntryCount(At(hw, Reg(f.address, VER))) <= TABLE_SIZE
  }

  /** Any controller with up to 24 pins fits, whatever else its version register says. */
  lemma FitsWhen(f: IoApic, hw: map<Reg, bv32>, highest: bv32)
    requires f.gsiBase < 0x1_0000_0000 && highest <= 23
    requires At(hw, Reg(f.address, 0x01)) & 0x00FF0000 == highest << 16
    ensures FitsOne(f, hw)
  {
    EntryCountIs(At(hw, Reg(f.address, 0x01)), highest);
  }

  /** Any controllers at different addresses are apart. */
  lemma ApartIff(found: seq<IoApic>)
    ensures Apart(found) <==> forall i, j :: 0 <= i < |found| && 0 <= j < |found| && i != j ==>
                                found[i].address != found[j].address
  {}

  /** The controller has been initialized: its table and its registers hold the masked entries. */
  ghost predicate Ready(c: Controller, hw: map<Reg, bv32>) {
    && LayoutOf(c)
    && c.entries == EntryCount(At(hw, Reg(c.base, VER)))
    && forall p :: 0 <= p < c.entries ==> c.table[p] == ReadEntry(hw, c.base, p) == InitialEntry(p)
  }

  /** Initializing another controller does no harm to this one, even at the same address: the version
      register there gives the same number of pins, and they get the same entries again. */
  lemma StaysReady(c: Controller, d: Controller, hw: map<Reg, bv32>, hw': map<Reg, bv32>)
    requires Ready(c, hw) && Ready(d, hw')
    requires forall r: Reg :: r.base != d.base || r.index < REDTBL_BASE ==> At(hw', r) == At(hw, r)
    ensures Ready(c, hw')
  {
    hide InitialEntry, At, EntryCount;
    forall p | 0 <= p < c.entries ensures ReadEntry(hw', c.base, p) == InitialEntry(p) {
      if c.base == d.base {
        assert d.table[p] == ReadEntry(hw', d.base, p);
      } else {
        assert c.table[p] == ReadEntry(hw, c.base, p);
      }
    }
  }

  /** What initialization leaves: pin p masked, edge triggered, active high, fixed delivery of vector
      0x20 + p to processor 0. */
  function InitialRouting(cs: seq<Controller>, gsi: nat): Option<Route>
    requires Sized(cs)
  {
    var i := Locate(cs, gsi);
    if i == |cs| then None
    else
      assert LayoutOf(cs[i]);
      OwnedPin(cs[i], gsi);
      Some(Plain((0x20 + gsi - cs[i].gsiBase) as bv8, 0, false, false, true))
  }

  /** Where an interrupt goes after initialization, from what was detected and what the version registers say:
      to the pin of the first controller whose range it is in. */
  ghost predicate RoutedTo(found: seq<IoApic>, hw: map<Reg, bv32>, gsi: nat, r: Option<Route>) {
    || (exists i :: 0 <= i < |found| && InRange(found[i].gsiBase, PinsOf(found[i], hw), gsi) &&
          (forall k :: 0 <= k < i ==> !InRange(found[k].gsiBase, PinsOf(found[k], hw), gsi)) &&
          r == Some(Plain(DefaultVector(gsi - found[i].gsiBase), 0, false, false, true)))
    || (r == None && forall k :: 0 <= k < |found| ==> !InRange(found[k].gsiBase, PinsOf(found[k], hw), gsi))
  }

  lemma CountsAreRegisters(cs: seq<Controller>, found: seq<IoApic>, start: map<Reg, bv32>, hw: map<Reg, bv32>)
    requires |cs| == |found| && forall r: Reg :: r.index < REDTBL_BASE ==> At(hw, r) == At(start, r)
    requires forall i :: 0 <= i < |cs| ==> Describes(cs[i], found[i]) && Ready(cs[i], hw)
    ensures forall i :: 0 <= i < |cs| ==> cs[i].entries == PinsOf(found[i], start)
  {
    hide At, EntryCount, ReadEntry;
  }

  /** The 8-bit vector initialization gives a pin. */
  function DefaultVector(pin: int): bv8 {
    ((0x20 + pin) % 0x100) as bv8
  }

  function PinsOf(f: IoApic, hw: map<Reg, bv32>): nat {
    EntryCount(At(hw, Reg(f.address, 0x01)))
  }

  lemma InitiallyRoutedTo(cs: seq<Controller>, found: seq<IoApic>, hw: map<Reg, bv32>, gsi: nat)
    requires |cs| == |found| && Sized(cs)
    requires forall i :: 0 <= i < |cs| ==> Describes(cs[i], found[i]) && cs[i].entries == PinsOf(found[i], hw)
    ensures RoutedTo(found, hw, gsi, InitialRouting(cs, gsi))
  {
    hide Owns, Locate, PinsOf, DefaultVector, Plain;
    LocateExactly(cs, gsi);
    var i := Locate(cs, gsi);
    if i < |cs| {
      PinInTable(cs, gsi);
      DefaultVectorIs(gsi - cs[i].gsiBase);
    }
  }

  lemma DefaultVectorIs(pin: nat)
    requires pin < TABLE_SIZE
    ensures DefaultVector(pin) == (0x20 + pin) as bv8
  {}

  lemma Unpack(c: Controller, f: IoApic, hw: map<Reg, bv32>)
    requires Describes(c, f) && FitsOne(f, hw)
    ensures c.enabled && c.gsiBase < TWO_TO_32 && 1 <= EntryCount(At(hw, Reg(c.base, VER))) <= TABLE_SIZE
  {}

  lemma StillFits(found: seq<IoApic>, hw: map<Reg, bv32>, hw': map<Reg, bv32>)
    requires Fits(found, hw) && forall r: Reg :: r.index < REDTBL_BASE ==> At(hw', r) == At(hw, r)
    ensures Fits(found, hw')
  {
    hide At, EntryCount;
    forall i | 0 <= i < |found| ensures FitsOne(found[i], hw') {
      assert FitsOne(found[i], hw);
    }
  }

  lemma AllReady(cs: seq<Controller>, found: seq<IoApic>, hw: map<Reg, bv32>)
    requires |cs| == |found|
    requires forall i :: 0 <= i < |cs| ==> Describes(cs[i], found[i]) && Ready(cs[i], hw)
    ensures Sized(cs) && Shadows(hw, cs) && CountedAlike(cs) && (Apart(found) ==> Layout(cs))
    ensures forall g: nat :: Routed(hw, cs, g) == InitialRouting(cs, g)
  {
    hide At, ReadEntry, EntryCount, FitsOne, Meaning, Owns, InitialEntry;
    forall g: nat ensures Routed(hw, cs, g) == InitialRouting(cs, g) {
      var i := Locate(cs, g);
      if i < |cs| {
        assert Ready(cs[i], hw);
        OwnedPin(cs[i], g);
        InitialMeaning(g - cs[i].gsiBase);
      }
    }
  }

  /** The route once the legacy interrupts up to `last` are set up. */
  function LegacyRouting(gsi: nat, last: int, r: Option<Route>): Option<Route> {
    if IsLegacy(gsi) && gsi <= last && r.Some? then Some(LegacyRoute(gsi)) else r
  }

  const NOT_FOUND := 0xFF

  lemma OwnsFrom(c: Controller, gsi: nat)
    requires Owns(c, gsi)
    ensures c.gsiBase <= gsi
  {}

  lemma PinInTable(cs: seq<Controller>, gsi: nat)
    requires Sized(cs) && Locate(cs, gsi) < |cs|
    ensures
      var c := cs[Locate(cs, gsi)];
      0 <= gsi - c.gsiBase < c.entries <= TABLE_SIZE == |c.table|
  {
    hide Owns;
    assert LayoutOf(cs[Locate(cs, gsi)]);
    OwnedPin(cs[Locate(cs, gsi)], gsi);
  }

  lemma RoutedOwn(hw: map<Reg, bv32>, cs: seq<Controller>, gsi: nat)
    requires Sized(cs) && Locate(cs, gsi) < |cs|
    ensures
      var c := cs[Locate(cs, gsi)];
      gsi >= c.gsiBase && Routed(hw, cs, gsi) == Some(Meaning(ReadEntry(hw, c.base, gsi - c.gsiBase)))
  {
    hide Meaning, ReadEntry;
    PinInTable(cs, gsi);
  }

  /** Only the two registers of the interrupt's entry may differ. */
  ghost predicate Elsewhere(hw: map<Reg, bv32>, hw': map<Reg, bv32>, cs: seq<Controller>, gsi: nat) {
    var i := Locate(cs, gsi);
    forall r: Reg :: At(hw', r) == At(hw, r) || (i < |cs| && gsi >= cs[i].gsiBase &&
      (r == LowReg(cs[i].base, gsi - cs[i].gsiBase) || r == HighReg(cs[i].base, gsi - cs[i].gsiBase)))
  }

  lemma StoredElsewhere(hw: map<Reg, bv32>, cs: seq<Controller>, gsi: nat, e: Entry)
    requires Layout(cs) && Locate(cs, gsi) < |cs| && gsi >= cs[Locate(cs, gsi)].gsiBase
    ensures
      var c := cs[Locate(cs, gsi)];
      Elsewhere(hw, WriteEntry(hw, c.base, gsi - c.gsiBase, e), cs, gsi)
  {
    hide Locate, Owns;
  }

  lemma StoredPrefix(all: seq<Controller>, num: nat, i: nat, pin: nat, e: Entry)
    requires i < num <= |all| && pin < |all[i].table|
    ensures all[i := all[i].(table := all[i].table[pin := e])][..num] == Stored(all[..num], i, pin, e)
  {}

  predicate IsLegacy(gsi: nat) {
    gsi == 0 || gsi == 1 || gsi == 3 || gsi == 4 || gsi == 6 || gsi == 8 || 12 <= gsi <= 15
  }

  function LegacyRoute(gsi: nat): Route
    requires IsLegacy(gsi)
  {
    Plain(LegacyVector(gsi), 0, false, false, false)
  }

  function LegacyVector(gsi: nat): bv8
    requires IsLegacy(gsi)
  {
    (0x20 + gsi) as bv8
  }

  predicate NextLegacy(last: int, gsi: nat) {
    last < gsi && IsLegacy(gsi) && forall g: nat :: last < g < gsi ==> !IsLegacy(g)
  }

  lemma LegacyOrder()
    ensures NextLegacy(-1, 0) && NextLegacy(0, 1) && NextLegacy(1, 3) && NextLegacy(3, 4) && NextLegacy(4, 6)
    ensures NextLegacy(6, 8) && NextLegacy(8, 12) && NextLegacy(12, 13) && NextLegacy(13, 14) && NextLegacy(14, 15)
    ensures forall g: nat :: IsLegacy(g) ==> g <= 15
  {}

  lemma LegacyVectors()
    ensures LegacyVector(0) == 0x20 && LegacyVector(1) == 0x21 && LegacyVector(3) == 0x23 && LegacyVector(4) == 0x24
    ensures LegacyVector(6) == 0x26 && LegacyVector(8) == 0x28 && LegacyVector(12) == 0x2C && LegacyVector(13) == 0x2D
    ensures LegacyVector(14) == 0x2E && LegacyVector(15) == 0x2F
  {}

  lemma LegacyEnds(start: imap<nat, Option<Route>>, g: nat)
    requires g in start
    ensures LegacyRouting(g, -1, start[g]) == start[g]
    ensures LegacyRouting(g, 15, start[g]) ==
            if IsLegacy(g) && start[g].Some? then Some(LegacyRoute(g)) else start[g]
  {}

  /** One call, whatever the addresses: the entry of the interrupt's first owner is read, changed as requested
      and stored in the registers and in that owner's table; without an owner nothing happens. */
  ghost predicate StepTo(hw: map<Reg, bv32>, cs: seq<Controller>, hw': map<Reg, bv32>, cs': seq<Controller>,
                         gsi: nat, request: Request)
  {
    var i := Locate(cs, gsi);
    if i == |cs| then hw' == hw && cs' == cs
    else
      && 0 <= gsi - cs[i].gsiBase < |cs[i].table|
      && var base, pin := cs[i].base, gsi - cs[i].gsiBase;
      && var e := ReadEntry(hw', base, pin);
      && Meaning(e) == Effect(request, Meaning(ReadEntry(hw, base, pin)))
      && hw' == WriteEntry(hw, base, pin, e) && cs' == Stored(cs, i, pin, e)
  }

  /** How an interrupt is routed, according to the driver's copy. */
  function Copied(cs: seq<Controller>, gsi: nat): Option<Route>
    requires Sized(cs)
  {
    var i := Locate(cs, gsi);
    if i == |cs| then None
    else
      PinInTable(cs, gsi);
      Some(Meaning(cs[i].table[gsi - cs[i].gsiBase]))
  }

  lemma CopiedIsRouted(hw: map<Reg, bv32>, cs: seq<Controller>, gsi: nat)
    requires Sized(cs) && Shadows(hw, cs)
    ensures Copied(cs, gsi) == Routed(hw, cs, gsi)
  {
    hide Meaning, ReadEntry, Locate, Owns;
    var i := Locate(cs, gsi);
    if i < |cs| {
      PinInTable(cs, gsi);
      assert cs[i].table[gsi - cs[i].gsiBase] == ReadEntry(hw, cs[i].base, gsi - cs[i].gsiBase);
    }
  }

  /** The same address has the same pins, as after initialization. */
  predicate CountedAlike(cs: seq<Controller>) {
    forall i, k :: 0 <= i < |cs| && 0 <= k < |cs| && cs[i].base == cs[k].base ==> cs[i].entries == cs[k].entries
  }

  /** No controller that some interrupt is found at shares its address. */
  ghost predicate OwnersApart(cs: seq<Controller>) {
    forall gsi: nat, k: nat :: Locate(cs, gsi) < |cs| && k < |cs| && k != Locate(cs, gsi) ==>
      cs[k].base != cs[Locate(cs, gsi)].base
  }

  /** Some call leaves the copy wrong. */
  ghost predicate Breaks(hw: map<Reg, bv32>, cs: seq<Controller>, gsi: nat, request: Request,
                         hw': map<Reg, bv32>, cs': seq<Controller>)
  {
    StepTo(hw, cs, hw', cs', gsi, request) && !(Sized(cs') && Shadows(hw', cs'))
  }

  /** From a right copy, every possible call leaves a right copy exactly when no controller that owns an
      interrupt shares its address with another. */
  lemma CallsKeepCopyIff(hw: map<Reg, bv32>, cs: seq<Controller>)
    requires Sized(cs) && Shadows(hw, cs) && CountedAlike(cs)
    ensures (forall gsi: nat, request, hw', cs' :: !Breaks(hw, cs, gsi, request, hw', cs')) <==> OwnersApart(cs)
  {
    hide Sized, Shadows, Locate, Owns, StepTo, CountedAlike;
    if OwnersApart(cs) {
      forall gsi: nat, request, hw', cs' ensures !Breaks(hw, cs, gsi, request, hw', cs') {
        if StepTo(hw, cs, hw', cs', gsi, request) {
          ApartStepKeeps(hw, cs, hw', cs', gsi, request);
        }
      }
    } else {
      var gsi: nat, k: nat :| Locate(cs, gsi) < |cs| && k < |cs| && k != Locate(cs, gsi) &&
                              cs[k].base == cs[Locate(cs, gsi)].base;
      var request, hw', cs' := SharedBreaks(hw, cs, gsi, k);
      assert Breaks(hw, cs, gsi, request, hw', cs');
    }
  }

  lemma ApartStepKeeps(hw: map<Reg, bv32>, cs: seq<Controller>, hw': map<Reg, bv32>, cs': seq<Controller>,
                       gsi: nat, request: Request)
    requires Sized(cs) && Shadows(hw, cs) && OwnersApart(cs) && StepTo(hw, cs, hw', cs', gsi, request)
    ensures Sized(cs') && Shadows(hw', cs')
  {
    hide Meaning, Effect, ReadEntry, WriteEntry, Stored, Owns;
    var i := Locate(cs, gsi);
    if i < |cs| {
      PinInTable(cs, gsi);
      var pin := gsi - cs[i].gsiBase;
      StoreKeepsShadowsIff(hw, cs, i, pin, ReadEntry(hw', cs[i].base, pin));
    }
  }

  /** With a shared address, masking or unmasking does the damage. */
  lemma SharedBreaks(hw: map<Reg, bv32>, cs: seq<Controller>, gsi: nat, k: nat)
    returns (request: Request, hw': map<Reg, bv32>, cs': seq<Controller>)
    requires Sized(cs) && Shadows(hw, cs) && CountedAlike(cs)
    requires Locate(cs, gsi) < |cs| && k < |cs| && k != Locate(cs, gsi) && cs[k].base == cs[Locate(cs, gsi)].base
    ensures StepTo(hw, cs, hw', cs', gsi, request) && Sized(cs') && !Shadows(hw', cs')
  {
    hide Meaning, Effect, ReadEntry, WriteEntry, Stored, Owns, Locate, StepTo, Masked, Unmasked;
    var i := Locate(cs, gsi);
    PinInTable(cs, gsi);
    var pin := gsi - cs[i].gsiBase;
    var before := ReadEntry(hw, cs[i].base, pin);
    MaskedMeaning(before);
    Toggles(before);
    request := if Masked(before) != before then Mask else Unmask;
    var e := if Masked(before) != before then Masked(before) else Unmasked(before);
    StoreSteps(hw, cs, gsi, e, request);
    hw', cs' := WriteEntry(hw, cs[i].base, pin, e), Stored(cs, i, pin, e);
    assert LayoutOf(cs[k]) && cs[k].table[pin] == ReadEntry(hw, cs[k].base, pin);
    StoreKeepsShadowsIff(hw, cs, i, pin, e);
  }

  lemma Toggles(e: Entry)
    ensures Masked(e) != e || Unmasked(e) != e
  {
    assert e.low | 0x10000 != e.low || e.low & 0xFFFEFFFF != e.low;
  }

  lemma StoreSteps(hw: map<Reg, bv32>, cs: seq<Controller>, gsi: nat, e: Entry, request: Request)
    requires Sized(cs) && Locate(cs, gsi) < |cs| && gsi >= cs[Locate(cs, gsi)].gsiBase
    requires
      var c := cs[Locate(cs, gsi)];
      Meaning(e) == Effect(request, Meaning(ReadEntry(hw, c.base, gsi - c.gsiBase)))
    ensures
      var i := Locate(cs, gsi);
      var pin := gsi - cs[i].gsiBase;
      pin < |cs[i].table| && StepTo(hw, cs, WriteEntry(hw, cs[i].base, pin, e), Stored(cs, i, pin, e), gsi, request)
  {
    hide Locate, Owns, Meaning, ReadEntry, WriteEntry, Effect, Stored;
    PinInTable(cs, gsi);
    var c := cs[Locate(cs, gsi)];
    ReadWritten(hw, c.base, gsi - c.gsiBase, e);
  }

  /** With controllers at addresses of their own a store keeps the copy right, re-routes one interrupt, and
      changes no other register. */
  lemma StorePerforms(hw: map<Reg, bv32>, cs: seq<Controller>, gsi: nat, e: Entry, request: Request)
    requires Layout(cs) && Shadows(hw, cs) && Locate(cs, gsi) < |cs| && gsi >= cs[Locate(cs, gsi)].gsiBase
    requires
      var c := cs[Locate(cs, gsi)];
      Meaning(e) == Effect(request, Meaning(ReadEntry(hw, c.base, gsi - c.gsiBase)))
    ensures
      var i := Locate(cs, gsi);
      var pin := gsi - cs[i].gsiBase;
      && pin < |cs[i].table|
      && var hw', cs' := WriteEntry(hw, cs[i].base, pin, e), Stored(cs, i, pin, e);
      && Layout(cs') && Shadows(hw', cs') && SameSetup(cs, cs') && Elsewhere(hw, hw', cs, gsi)
      && Routed(hw, cs, gsi).Some?
      && forall g: nat :: Routed(hw', cs', g) == Update(g == gsi, request, Routed(hw, cs, g))
  {
    hide Locate, Owns, Meaning, ReadEntry, WriteEntry, Routed, Effect, At, Stored;
    var i := Locate(cs, gsi);
    var pin := gsi - cs[i].gsiBase;
    PinInTable(cs, gsi);
    RoutedOwn(hw, cs, gsi);
    forall g: nat ensures Routed(WriteEntry(hw, cs[i].base, pin, e), Stored(cs, i, pin, e), g)
                          == Update(g == gsi, request, Routed(hw, cs, g)) {
      StoreRoutes(hw, cs, gsi, e, g);
    }
    StoredLayout(cs, i, pin, e);
    StoreKeepsShadowsIff(hw, cs, i, pin, e);
    StoredElsewhere(hw, cs, gsi, e);
    StoredSetup(cs, i, pin, e);
  }

  class IoApicInfo {
    var num: nat
    var ioapics: seq<Controller>
    var initialized: bool
    var hw: map<Reg, bv32>

    function Active(): seq<Controller>
      reads this
      requires num <= |ioapics|
    {
      ioapics[..num]
    }

    ghost predicate Usable()
      reads this
    {
      && |ioapics| == MAX_CONTROLLERS && num <= MAX_CONTROLLERS
      && (forall i :: 0 <= i < MAX_CONTROLLERS ==> |ioapics[i].table| == TABLE_SIZE)
      && (initialized ==> Sized(Active()))
    }

    /** The copy is right. */
    ghost predicate InSync()
      reads this
    {
      Usable() && (initialized ==> Shadows(hw, Active()))
    }

    /** The copy is right and, with controllers at addresses of their own, will stay so. */
    ghost predicate Valid()
      reads this
    {
      InSync() && (initialized ==> Layout(Active()))
    }

    /** How the hardware routes an interrupt; nothing before initialization or when no controller owns it. */
    ghost function RouteOf(gsi: nat): Option<Route>
      reads this
      requires Usable()
    {
      if initialized then Routed(hw, Active(), gsi) else None
    }

    constructor (hw: map<Reg, bv32>)
      ensures Valid() && !initialized && this.hw == hw
    {
      num, initialized := 0, false;
      var zero := Controller(0, 0, 0, 0, false, 0, seq(TABLE_SIZE, _ => Entry(0, 0)));
      ioapics := seq(MAX_CONTROLLERS, _ => zero);
      this.hw := hw;
    }

    method UseDefault()
      requires |ioapics| == MAX_CONTROLLERS && |ioapics[0].table| == TABLE_SIZE
      modifies this`num, this`ioapics
      ensures num == 1 && |ioapics| == MAX_CONTROLLERS && ioapics[1..] == old(ioapics[1..])
      ensures Describes(ioapics[0], IoApic(old(ioapics[0].id), DEFAULT_ADDRESS, 0))
    {
      ioapics := ioapics[0 := ioapics[0].(base := DEFAULT_ADDRESS, gsiBase := 0, enabled := true)];
      num := 1;
    }

    /** ioapic_detect_controllers */
    method DetectControllers(madt: Option<seq<Octet>>)
      requires Usable() && (madt.Some? ==> DetectionEnds(madt.value))
      modifies this`num, this`ioapics
      ensures |ioapics| == MAX_CONTROLLERS
      ensures num == |Detected(madt, old(ioapics[0].id))|
      ensures forall i :: 0 <= i < num ==> Describes(ioapics[i], Detected(madt, old(ioapics[0].id))[i])
      ensures forall i :: 0 <= i < MAX_CONTROLLERS ==> |ioapics[i].table| == TABLE_SIZE
    {
      hide Little32, EndsOrFills, FirstIoApics, Detected;
      NoTable(ioapics[0].id);
      if madt.None? {
        UseDefault();
        return;
      }
      var mem := madt.value;
      ghost var found: seq<IoApic> := [];
      var madtLength, offset := End(mem), HEADER_SIZE;
      num := 0;
      while offset < madtLength && num < MAX_CONTROLLERS
        invariant num == |found| <= MAX_CONTROLLERS == |ioapics|
        invariant forall i :: 0 <= i < MAX_CONTROLLERS ==> |ioapics[i].table| == TABLE_SIZE
        invariant forall i :: 0 <= i < num ==> Describes(ioapics[i], found[i])
        invariant num == 0 ==> ioapics == old(ioapics)
        invariant EndsOrFills(mem, offset, MAX_CONTROLLERS - num)
        invariant FirstIoApics(mem, HEADER_SIZE, MAX_CONTROLLERS) ==
                  found + FirstIoApics(mem, offset, MAX_CONTROLLERS - num)
        decreases madtLength - offset
      {
        NextFirst(mem, offset, MAX_CONTROLLERS - num);
        Reassociate(found, IoApicHead(mem, offset),
                    FirstIoApics(mem, offset + LengthAt(mem, offset),
                                 MAX_CONTROLLERS - num - |IoApicHead(mem, offset)|));
        if mem[offset] == IO_APIC {
          found := found + [IoApicAt(mem, offset)];
          ioapics := ioapics[num := ioapics[num].(id := mem[offset + 2], base := Little32(mem, offset + 4),
                                                  gsiBase := Little32(mem, offset + 8), enabled := true)];
          num := num + 1;
        }
        offset := offset + mem[offset + 1] as nat;
      }
      NoneFirst(mem, offset, MAX_CONTROLLERS - num);
      DetectedIs(mem, old(ioapics[0].id));
      if num == 0 {
        UseDefault();
      }
    }

    /** ioapic_initialize_controller */
    method InitializeController(k: nat)
      requires k < |ioapics| && ioapics[k].enabled && |ioapics[k].table| == TABLE_SIZE && ioapics[k].gsiBase < TWO_TO_32
      requires 1 <= EntryCount(At(hw, Reg(ioapics[k].base, VER))) <= TABLE_SIZE
      modifies this`ioapics, this`hw
      ensures |ioapics| == old(|ioapics|) && Ready(ioapics[k], hw) && |ioapics[k].table| == TABLE_SIZE
      ensures ioapics == old(ioapics)[k := ioapics[k]]
      ensures ioapics[k] == old(ioapics[k]).(version := ioapics[k].version, entries := ioapics[k].entries,
                                                     table := ioapics[k].table)
      ensures forall r: Reg :: r.base != ioapics[k].base || r.index < REDTBL_BASE ==> At(hw, r) == old(At(hw, r))
    {
      hide ReadEntry, WriteEntry, InitialEntry, At, EntryCount;
      if !ioapics[k].enabled {
        return;
      }
      var base := ioapics[k].base;
      var versionReg := At(hw, Reg(base, VER));
      ioapics := ioapics[k := ioapics[k].(version := Vector(versionReg), entries := EntryCount(versionReg))];
      var i := 0;
      while i < ioapics[k].entries
        invariant 0 <= i <= EntryCount(versionReg)
        invariant |ioapics| == old(|ioapics|) && ioapics == old(ioapics)[k := ioapics[k]]
        invariant ioapics[k] == old(ioapics[k]).(version := ioapics[k].version, entries := EntryCount(versionReg),
                                                         table := ioapics[k].table)
        invariant |ioapics[k].table| == TABLE_SIZE
        invariant forall p :: 0 <= p < i ==> ioapics[k].table[p] == ReadEntry(hw, base, p) == InitialEntry(p)
        invariant forall r: Reg :: r.base != base || r.index < REDTBL_BASE ==> At(hw, r) == old(At(hw, r))
      {
        var entry := InitialEntry(i);
        ReadWritten(hw, base, i, entry);
        hw := WriteEntry(hw, base, i, entry);
        ioapics := ioapics[k := ioapics[k].(table := ioapics[k].table[i := entry])];
        i := i + 1;
      }
    }

    /** ioapic_init: every pin of every recorded controller is masked, in the registers and in the copy. */
    method Init(madt: Option<seq<Octet>>)
      requires Usable() && (madt.Some? ==> DetectionEnds(madt.value))
      requires Fits(Detected(madt, ioapics[0].id), hw)
      modifies this
      ensures InSync() && initialized && CountedAlike(Active())
      ensures Apart(Detected(madt, old(ioapics[0].id))) ==> Valid()
      ensures num == |Detected(madt, old(ioapics[0].id))|
      ensures forall i :: 0 <= i < num ==>
                Describes(ioapics[i], Detected(madt, old(ioapics[0].id))[i]) && Ready(ioapics[i], hw)
      ensures forall g: nat :: RouteOf(g) == InitialRouting(Active(), g)
      ensures forall g: nat :: RoutedTo(Detected(madt, old(ioapics[0].id)), old(hw), g, RouteOf(g))
      ensures forall r: Reg :: r.index < REDTBL_BASE ==> At(hw, r) == old(At(hw, r))
    {
      hide Detected, FitsOne, ReadEntry, WriteEntry, InitialEntry, At, EntryCount, Ready, Routed, InitialRouting;
      hide RoutedTo, PinsOf;
      ghost var found := Detected(madt, ioapics[0].id);
      num, initialized := 0, false;
      DetectControllers(madt);
      var i := 0;
      while i < num
        invariant 0 <= i <= num == |found| && |ioapics| == MAX_CONTROLLERS && !initialized
        invariant forall k :: 0 <= k < MAX_CONTROLLERS ==> |ioapics[k].table| == TABLE_SIZE
        invariant forall k :: 0 <= k < num ==> Describes(ioapics[k], found[k])
        invariant forall k :: 0 <= k < i ==> Ready(ioapics[k], hw)
        invariant Fits(found, hw)
        invariant forall r: Reg :: r.index < REDTBL_BASE ==> At(hw, r) == old(At(hw, r))
      {
        ghost var hw0 := hw;
        Unpack(ioapics[i], found[i], hw);
        InitializeController(i);
        StillFits(found, hw0, hw);
        forall k | 0 <= k < i ensures Ready(ioapics[k], hw) {
          StaysReady(ioapics[k], ioapics[i], hw0, hw);
        }
        i := i + 1;
      }
      initialized := true;
      AllReady(Active(), found, hw);
      assert forall g: nat :: RouteOf(g) == InitialRouting(Active(), g);
      CountsAreRegisters(Active(), found, old(hw), hw);
      forall g: nat ensures RoutedTo(found, old(hw), g, InitialRouting(Active(), g)) {
        InitiallyRoutedTo(Active(), found, old(hw), g);
      }
    }

    /** How an interrupt is routed, according to the copy. */
    ghost function CopyOf(gsi: nat): Option<Route>
      reads this
      requires Usable()
    {
      if initialized then Copied(Active(), gsi) else None
    }

    /** What a call does, whether or not the copy was right before. */
    twostate predicate Stepped(gsi: nat, request: Request)
      requires old(Usable())
      reads this
    {
      && Usable() && num == old(num) && initialized == old(initialized)
      && if initialized then StepTo(old(hw), old(Active()), hw, Active(), gsi, request)
         else ioapics == old(ioapics) && hw == old(hw)
    }

    /** The call carried out the request: the interrupt asked for is routed as the request says, all others
        as before, and no other register changed.  Without an owner for the interrupt nothing changed. */
    twostate predicate Performed(gsi: nat, request: Request)
      requires old(Valid())
      reads this
    {
      && Valid() && num == old(num) && initialized == old(initialized)
      && (forall g: nat :: RouteOf(g) == Update(g == gsi, request, old(RouteOf(g))))
      && SameSetup(old(Active()), Active()) && Elsewhere(old(hw), hw, old(Active()), gsi)
      && (old(RouteOf(gsi)) == None ==> ioapics == old(ioapics) && hw == old(hw))
    }

    /** ioapic_find_controller_for_gsi */
    method FindControllerForGsi(gsi: nat) returns (id: nat, pin: nat)
      requires Usable()
      ensures id == if Locate(Active(), gsi) == num then 0xFF else Locate(Active(), gsi)
      ensures id != NOT_FOUND ==> id < num && Active()[id] == ioapics[id] && pin == gsi - ioapics[id].gsiBase
      ensures initialized && id != NOT_FOUND ==> InRange(ioapics[id].gsiBase, ioapics[id].entries, gsi)
      ensures initialized ==> forall k :: 0 <= k < num && (id == NOT_FOUND || k < id) ==>
                                !InRange(ioapics[k].gsiBase, ioapics[k].entries, gsi)
    {
      hide Owns, Layout, Shadows, InRange;
      if initialized {
        LocateExactly(Active(), gsi);
        assert forall k :: 0 <= k < num ==> Active()[k] == ioapics[k];
      }
      var i := 0;
      while i < num
        invariant 0 <= i <= num
        invariant forall k :: 0 <= k < i ==> !Owns(Active()[k], gsi)
      {
        if Owns(ioapics[i], gsi) {
          LocateIs(Active(), gsi, i);
          OwnsFrom(ioapics[i], gsi);
          return i, gsi - ioapics[i].gsiBase;
        }
        i := i + 1;
      }
      LocateIs(Active(), gsi, num);
      id, pin := NOT_FOUND, 0;
    }

    /** The last two statements of every call that changes an entry. */
    method Store(id: nat, pin: nat, entry: Entry, ghost gsi: nat, ghost request: Request)
      requires Usable() && initialized && id == Locate(Active(), gsi) < num && pin == gsi - ioapics[id].gsiBase
      requires Meaning(entry) == Effect(request, Meaning(ReadEntry(hw, ioapics[id].base, pin)))
      modifies this`ioapics, this`hw
      ensures Stepped(gsi, request) && (old(Valid()) ==> Performed(gsi, request))
    {
      hide Locate, Owns, Meaning, ReadEntry, WriteEntry, Routed, Effect, At, Stored, StepTo;
      ghost var cs, hw0 := Active(), hw;
      PinInTable(cs, gsi);
      StoreSteps(hw, cs, gsi, entry, request);
      StoredPrefix(ioapics, num, id, pin, entry);
      StoredSized(cs, id, pin, entry);
      if Valid() {
        StorePerforms(hw, cs, gsi, entry, request);
      }
      hw := WriteEntry(hw, ioapics[id].base, pin, entry);
      ioapics := ioapics[id := ioapics[id].(table := ioapics[id].table[pin := entry])];
      assert Active() == Stored(cs, id, pin, entry);
    }

    /** ioapic_set_irq */
    method SetIrq(gsi: nat, vector: bv8, destination: bv8, level: bool, activeLow: bool)
      requires Usable()
      modifies this`ioapics, this`hw
      ensures Stepped(gsi, Request.SetIrq(vector, destination, level, activeLow))
      ensures old(Valid()) ==> Performed(gsi, Request.SetIrq(vector, destination, level, activeLow))
    {
      hide Locate, Owns, Meaning, ReadEntry, WriteEntry, IrqEntry, Plain, At;
      if !initialized {
        return;
      }
      var id, pin := FindControllerForGsi(gsi);
      if id == NOT_FOUND {
        return;
      }
      IrqMeaning(vector, destination, level, activeLow);
      Store(id, pin, IrqEntry(vector, destination, level, activeLow), gsi,
            Request.SetIrq(vector, destination, level, activeLow));
    }

    /** ioapic_mask_irq */
    method MaskIrq(gsi: nat)
      requires Usable()
      modifies this`ioapics, this`hw
      ensures Stepped(gsi, Mask)
      ensures old(Valid()) ==> Performed(gsi, Mask)
    {
      hide Locate, Owns, Meaning, ReadEntry, WriteEntry, At, Masked;
      if !initialized {
        return;
      }
      var id, pin := FindControllerForGsi(gsi);
      if id == NOT_FOUND {
        return;
      }
      var entry := ReadEntry(hw, ioapics[id].base, pin);
      MaskedMeaning(entry);
      Store(id, pin, Masked(entry), gsi, Mask);
    }

    /** ioapic_unmask_irq */
    method UnmaskIrq(gsi: nat)
      requires Usable()
      modifies this`ioapics, this`hw
      ensures Stepped(gsi, Unmask)
      ensures old(Valid()) ==> Performed(gsi, Unmask)
    {
      hide Locate, Owns, Meaning, ReadEntry, WriteEntry, At, Unmasked;
      if !initialized {
        return;
      }
      var id, pin := FindControllerForGsi(gsi);
      if id == NOT_FOUND {
        return;
      }
      var entry := ReadEntry(hw, ioapics[id].base, pin);
      MaskedMeaning(entry);
      Store(id, pin, Unmasked(entry), gsi, Unmask);
    }

    /** ioapic_set_delivery_mode */
    method SetDeliveryMode(gsi: nat, mode: bv8)
      requires Usable()
      modifies this`ioapics, this`hw
      ensures Stepped(gsi, DeliveryMode(mode))
      ensures old(Valid()) ==> Performed(gsi, DeliveryMode(mode))
    {
      hide Locate, Owns, Meaning, ReadEntry, WriteEntry, At, WithDelivery;
      if !initialized {
        return;
      }
      var id, pin := FindControllerForGsi(gsi);
      if id == NOT_FOUND {
        return;
      }
      var entry := ReadEntry(hw, ioapics[id].base, pin);
      DeliveryMeaning(entry, mode);
      Store(id, pin, WithDelivery(entry, mode), gsi, DeliveryMode(mode));
    }

    /** ioapic_set_destination_mode */
    method SetDestinationMode(gsi: nat, logical: bool)
      requires Usable()
      modifies this`ioapics, this`hw
      ensures Stepped(gsi, DestinationMode(logical))
      ensures old(Valid()) ==> Performed(gsi, DestinationMode(logical))
    {
      hide Locate, Owns, Meaning, ReadEntry, WriteEntry, At, WithDestinationMode;
      if !initialized {
        return;
      }
      var id, pin := FindControllerForGsi(gsi);
      if id == NOT_FOUND {
        return;
      }
      var entry := ReadEntry(hw, ioapics[id].base, pin);
      DestinationModeMeaning(entry, logical);
      Store(id, pin, WithDestinationMode(entry, logical), gsi, DestinationMode(logical));
    }

    /** ioapic_is_irq_masked, from the hardware */
    method IsIrqMasked(gsi: nat) returns (r: bool)
      requires Usable()
      ensures r == match RouteOf(gsi) case None => true case Some(route) => route.masked
    {
      hide Locate, Owns, ReadEntry, Vector, Delivery, Destination, Bit, Reserved, HighRest;
      if !initialized {
        return true;
      }
      var id, pin := FindControllerForGsi(gsi);
      if id == NOT_FOUND {
        return true;
      }
      PinInTable(Active(), gsi);
      RoutedOwn(hw, Active(), gsi);
      var entry := ReadEntry(hw, ioapics[id].base, pin);
      return Bit(entry.low, 0x10000);
    }

    /** ioapic_get_vector: what the copy says is what the hardware does. */
    method GetVector(gsi: nat) returns (r: bv8)
      requires Usable()
      ensures r == match CopyOf(gsi) case None => 0 case Some(route) => route.vector
      ensures InSync() ==> r == match RouteOf(gsi) case None => 0 case Some(route) => route.vector
    {
      hide Locate, Owns, ReadEntry, Vector, Delivery, Destination, Bit, Reserved, HighRest;
      if !initialized {
        return 0;
      }
      var id, pin := FindControllerForGsi(gsi);
      if id == NOT_FOUND {
        return 0;
      }
      PinInTable(Active(), gsi);
      if InSync() {
        CopiedIsRouted(hw, Active(), gsi);
      }
      return Vector(ioapics[id].table[pin].low);
    }

    /** ioapic_get_destination */
    method GetDestination(gsi: nat) returns (r: bv8)
      requires Usable()
      ensures r == match CopyOf(gsi) case None => 0 case Some(route) => route.destination
      ensures InSync() ==> r == match RouteOf(gsi) case None => 0 case Some(route) => route.destination
    {
      hide Locate, Owns, ReadEntry, Vector, Delivery, Destination, Bit, Reserved, HighRest;
      if !initialized {
        return 0;
      }
      var id, pin := FindControllerForGsi(gsi);
      if id == NOT_FOUND {
        return 0;
      }
      PinInTable(Active(), gsi);
      if InSync() {
        CopiedIsRouted(hw, Active(), gsi);
      }
      return Destination(ioapics[id].table[pin].high);
    }

    /** Any public calls, one after the other: every interrupt ends up routed as `After` says, and copy and
        registers still agree. */
    method Serve(calls: seq<(nat, Request)>)
      requires Valid()
      modifies this`ioapics, this`hw
      ensures Valid() && num == old(num) && initialized == old(initialized) && SameSetup(old(Active()), Active())
      ensures forall g: nat :: RouteOf(g) == Routing(calls, g, old(RouteOf(g)))
    {
      hide RouteOf, Effect, Elsewhere, Layout, Shadows, SameSetup;
      StartSetup(Active());
      for i := 0 to |calls|
        invariant Valid() && num == old(num) && initialized == old(initialized) && SameSetup(old(Active()), Active())
        invariant forall g: nat :: RouteOf(g) == Routing(calls[..i], g, old(RouteOf(g)))
      {
        assert calls[..i + 1][..i] == calls[..i];
        var (gsi, request) := calls[i];
        ghost var before := Active();
        match request {
          case SetIrq(vector, destination, level, activeLow) => SetIrq(gsi, vector, destination, level, activeLow);
          case Mask => MaskIrq(gsi);
          case Unmask => UnmaskIrq(gsi);
          case DeliveryMode(mode) => SetDeliveryMode(gsi, mode);
          case DestinationMode(logical) => SetDestinationMode(gsi, logical);
        }
        SameSetupTransitive(old(Active()), before, Active());
      }
      assert calls[..|calls|] == calls;
    }

    /** One call of ioapic_setup_legacy_irqs; the last one was for interrupt `last`. */
    method SetLegacyIrq(gsi: nat, vector: bv8, ghost last: int, ghost start: imap<nat, Option<Route>>)
      requires Valid() && initialized && NextLegacy(last, gsi) && vector == LegacyVector(gsi)
      requires forall g: nat :: g in start && RouteOf(g) == LegacyRouting(g, last, start[g])
      modifies this`ioapics, this`hw
      ensures Valid() && initialized && forall g: nat :: RouteOf(g) == LegacyRouting(g, gsi, start[g])
    {
      hide Layout, Sized, Shadows, Routed, StepTo, IsLegacy, Plain, LegacyVector;
      SetIrq(gsi, vector, 0, false, false);
    }

    /** ioapic_setup_legacy_irqs: afterwards these interrupts, where a controller owns them, are unmasked
        and edge triggered with vector 0x20 + interrupt; all others are as they were. */
    method SetupLegacyIrqs()
      requires Valid()
      modifies this`ioapics, this`hw
      ensures Valid()
      ensures forall g: nat :: RouteOf(g) ==
                if IsLegacy(g) && old(RouteOf(g)).Some? then Some(LegacyRoute(g)) else old(RouteOf(g))
    {
      if !initialized {
        return;
      }
      hide Valid, RouteOf, NextLegacy, IsLegacy, LegacyRoute, LegacyRouting, LegacyVector;
      ghost var start := imap g: nat :: RouteOf(g);
      forall g: nat ensures LegacyRouting(g, -1, start[g]) == start[g] {
        LegacyEnds(start, g);
      }
      LegacyOrder();
      LegacyVectors();
      SetLegacyIrq(0, 0x20, -1, start);
      SetLegacyIrq(1, 0x21, 0, start);
      SetLegacyIrq(3, 0x23, 1, start);
      SetLegacyIrq(4, 0x24, 3, start);
      SetLegacyIrq(6, 0x26, 4, start);
      SetLegacyIrq(8, 0x28, 6, start);
      SetLegacyIrq(12, 0x2C, 8, start);
      SetLegacyIrq(13, 0x2D, 12, start);
      SetLegacyIrq(14, 0x2E, 13, start);
      SetLegacyIrq(15, 0x2F, 14, start);
      forall g: nat ensures RouteOf(g) == if IsLegacy(g) && start[g].Some? then Some(LegacyRoute(g)) else start[g] {
        LegacyEnds(start, g);
      }
    }
  }

  // ---------- Runs ----------

  /** What calls make of one interrupt's route. */
  function After(calls: seq<(nat, Request)>, gsi: nat, r: Route): Route {
    if calls == [] then r
    else
      var n := |calls| - 1;
      var before := After(calls[..n], gsi, r);
      if calls[n].0 == gsi then Effect(calls[n].1, before) else before
  }

  /** What calls make of the routing of one interrupt, if it is routed at all. */
  function Routing(calls: seq<(nat, Request)>, gsi: nat, r: Option<Route>): Option<Route> {
    if r.Some? then Some(After(calls, gsi, r.value)) else None
  }

  /** The groups of fields of a route that requests decide separately. */
  datatype Aspect = Line | MaskBit | Delivering | Addressing

  predicate Decides(request: Request, aspect: Aspect) {
    match request
    case SetIrq(_, _, _, _) => true
    case Mask => aspect == MaskBit
    case Unmask => aspect == MaskBit
    case DeliveryMode(_) => aspect == Delivering
    case DestinationMode(_) => aspect == Addressing
  }

  /** The last call that decides an aspect of the interrupt's route. */
  function Latest(calls: seq<(nat, Request)>, gsi: nat, aspect: Aspect): Option<Request> {
    if calls == [] then None
    else
      var n := |calls| - 1;
      if calls[n].0 == gsi && Decides(calls[n].1, aspect) then Some(calls[n].1)
      else Latest(calls[..n], gsi, aspect)
  }

  predicate Small(request: Request) {
    request.DeliveryMode? ==> request.mode <= 7
  }

  /** Requests with any delivery mode of three bits are small. */
  lemma SmallIff(mode: bv8)
    ensures Small(DeliveryMode(mode)) <==> mode & 7 == mode
  {
    SmallMode(mode);
  }

  /** The fields come from these calls, or from the start where there is none. */
  predicate ComesFrom(r: Route, start: Route, line: Option<Request>, mask: Option<Request>,
                      mode: Option<Request>, addressing: Option<Request>)
  {
    && (match line
        case Some(SetIrq(v, d, level, activeLow)) =>
          r.vector == v && r.destination == d && r.level == level && r.activeLow == activeLow
        case _ => r.vector == start.vector && r.destination == start.destination
                  && r.level == start.level && r.activeLow == start.activeLow)
    && r.masked == (match mask case None => start.masked case Some(q) => q.Mask?)
    && r.delivery == (match mode
                      case None => start.delivery
                      case Some(q) => if q.DeliveryMode? then q.mode else 0)
    && r.logical == (match addressing
                     case None => start.logical
                     case Some(q) => q.DestinationMode? && q.logical)
  }

  function Newer(q: Request, aspect: Aspect, older: Option<Request>): Option<Request> {
    if Decides(q, aspect) then Some(q) else older
  }

  lemma NextComesFrom(q: Request, r: Route, start: Route, l: Option<Request>, m: Option<Request>,
                      d: Option<Request>, a: Option<Request>)
    requires Small(q) && ComesFrom(r, start, l, m, d, a)
    ensures ComesFrom(Effect(q, r), start, Newer(q, Line, l), Newer(q, MaskBit, m),
                      Newer(q, Delivering, d), Newer(q, Addressing, a))
  {
    match q
    case SetIrq(v, d', level, activeLow) => SetComesFrom(q, r, start, l, m, d, a);
    case Mask => OneFieldComesFrom(q, r, start, l, m, d, a);
    case Unmask => OneFieldComesFrom(q, r, start, l, m, d, a);
    case DeliveryMode(_) => ModeComesFrom(q, r, start, l, m, d, a);
    case DestinationMode(_) => OneFieldComesFrom(q, r, start, l, m, d, a);
  }

  lemma SetComesFrom(q: Request, r: Route, start: Route, l: Option<Request>, m: Option<Request>,
                     d: Option<Request>, a: Option<Request>)
    requires q.SetIrq?
    ensures ComesFrom(Effect(q, r), start, Newer(q, Line, l), Newer(q, MaskBit, m),
                      Newer(q, Delivering, d), Newer(q, Addressing, a))
  {
    hide Deliver;
  }

  lemma OneFieldComesFrom(q: Request, r: Route, start: Route, l: Option<Request>, m: Option<Request>,
                          d: Option<Request>, a: Option<Request>)
    requires (q.Mask? || q.Unmask? || q.DestinationMode?) && ComesFrom(r, start, l, m, d, a)
    ensures ComesFrom(Effect(q, r), start, Newer(q, Line, l), Newer(q, MaskBit, m),
                      Newer(q, Delivering, d), Newer(q, Addressing, a))
  {
    hide Deliver;
  }

  lemma ModeComesFrom(q: Request, r: Route, start: Route, l: Option<Request>, m: Option<Request>,
                      d: Option<Request>, a: Option<Request>)
    requires q.DeliveryMode? && Small(q) && ComesFrom(r, start, l, m, d, a)
    ensures ComesFrom(Effect(q, r), start, Newer(q, Line, l), Newer(q, MaskBit, m),
                      Newer(q, Delivering, d), Newer(q, Addressing, a))
  {
    hide Deliver, Small;
    SmallEffect(q, r);
  }

  lemma SmallEffect(q: Request, r: Route)
    requires q.DeliveryMode? && Small(q)
    ensures Effect(q, r) == r.(delivery := q.mode)
  {
    hide Deliver;
    DeliverSmall(q.mode, r);
  }

  /** After any calls, on any interrupts in any order, with delivery modes of at most 7: vector,
      destination, trigger mode and polarity are those of the last ioapic_set_irq for the interrupt, the
      mask bit, the delivery mode and the destination mode those of the last call that sets them. */
  lemma {:induction false} RouteAfterCalls(calls: seq<(nat, Request)>, gsi: nat, start: Route)
    requires forall i :: 0 <= i < |calls| ==> Small(calls[i].1)
    ensures ComesFrom(After(calls, gsi, start), start, Latest(calls, gsi, Line), Latest(calls, gsi, MaskBit),
                      Latest(calls, gsi, Delivering), Latest(calls, gsi, Addressing))
  {
    hide Effect, Decides, Small;
    if calls == [] {
      UnchangedComesFrom(start);
    } else {
      hide ComesFrom;
      var n := |calls| - 1;
      var rest := calls[..n];
      RouteAfterCalls(rest, gsi, start);
      if calls[n].0 == gsi {
        NextComesFrom(calls[n].1, After(rest, gsi, start), start, Latest(rest, gsi, Line), Latest(rest, gsi, MaskBit),
                      Latest(rest, gsi, Delivering), Latest(rest, gsi, Addressing));
      }
    }
  }

  lemma UnchangedComesFrom(r: Route)
    ensures ComesFrom(r, r, None, None, None, None)
  {}

  /** The driver itself: whatever is called after initialization, with delivery modes of at most 7, an
      interrupt is routed exactly when a controller owns it, and then the fields of its route come from the
      last calls for it, or from the masked, edge-triggered start with vector 0x20 + pin. */
  method InitAndServe(info: IoApicInfo, madt: Option<seq<Octet>>, calls: seq<(nat, Request)>)
    requires info.Usable() && (madt.Some? ==> DetectionEnds(madt.value))
    requires Fits(Detected(madt, info.ioapics[0].id), info.hw) && Apart(Detected(madt, info.ioapics[0].id))
    requires forall i :: 0 <= i < |calls| ==> Small(calls[i].1)
    modifies info
    ensures info.Valid() && info.initialized
    ensures forall g: nat ::
              match InitialRouting(info.Active(), g)
              case None => info.RouteOf(g) == None
              case Some(start) =>
                info.RouteOf(g).Some? &&
                ComesFrom(info.RouteOf(g).value, start, Latest(calls, g, Line), Latest(calls, g, MaskBit),
                          Latest(calls, g, Delivering), Latest(calls, g, Addressing))
  {
    hide Detected, Fits, Apart, InitialRouting, Routed, After, Latest, ComesFrom, Small, SameSetup, Sized, Shadows,
         Ready;
    info.Init(madt);
    ghost var before := info.Active();
    info.Serve(calls);
    forall g: nat
      ensures Sized(info.Active()) && InitialRouting(info.Active(), g) == InitialRouting(before, g)
      ensures forall start ::
        ComesFrom(After(calls, g, start), start, Latest(calls, g, Line), Latest(calls, g, MaskBit),
                  Latest(calls, g, Delivering), Latest(calls, g, Addressing))
    {
      SameInitialRouting(before, info.Active(), g);
      forall start
        ensures ComesFrom(After(calls, g, start), start, Latest(calls, g, Line), Latest(calls, g, MaskBit),
                          Latest(calls, g, Delivering), Latest(calls, g, Addressing))
      {
        RouteAfterCalls(calls, g, start);
      }
    }
  }

  lemma SameInitialRouting(before: seq<Controller>, after: seq<Controller>, gsi: nat)
    requires Sized(before) && Sized(after) && SameSetup(before, after)
    ensures InitialRouting(after, gsi) == InitialRouting(before, gsi)
  {
    assert forall i :: 0 <= i < |before| ==> (Owns(after[i], gsi) <==> Owns(before[i], gsi));
    LocateIs(after, gsi, Locate(before, gsi)) by {
      hide Locate, Owns;
    }
  }

  // ---------- Two controllers at one address ----------

  /** A table with two I/O APICs at the default address, for the interrupts from 0 and from 24. */
  function TwoAtOneAddress(): seq<Octet> {
    [0x41, 0x50, 0x49, 0x43, 68, 0, 0, 0] + seq(36, _ => 0) +
    [1, 12, 0, 0, 0, 0, 0xC0, 0xFE, 0, 0, 0, 0] + [1, 12, 1, 0, 0, 0, 0xC0, 0xFE, 24, 0, 0, 0] +
    seq(12, _ => 0)
  }

  const FIRST := IoApic(0, DEFAULT_ADDRESS, 0)
  const SECOND := IoApic(1, DEFAULT_ADDRESS, 24)

  lemma TwoDetected(oldId: Octet)
    ensures DetectionEnds(TwoAtOneAddress()) && WalkEnds(TwoAtOneAddress())
    ensures Detected(Some(TwoAtOneAddress()), oldId) == [FIRST, SECOND]
  {
    hide EndsOrFills, FirstIoApics, Ends;
    var mem := TwoAtOneAddress();
    assert |mem| == 80 && End(mem) == 68;
    TwoRecords();
    NoneFirst(mem, 68, 6);
    TwoWalked();
  }

  lemma TwoRecords()
    ensures
      var mem := TwoAtOneAddress();
      && Readable(mem) && End(mem) == 68 && LengthAt(mem, 44) == 12 && LengthAt(mem, 56) == 12
      && IoApicHead(mem, 44) == [FIRST] && IoApicHead(mem, 56) == [SECOND]
  {
    var mem := TwoAtOneAddress();
    assert mem[44..56] == [1, 12, 0, 0, 0, 0, 0xC0, 0xFE, 0, 0, 0, 0];
    assert mem[56..68] == [1, 12, 1, 0, 0, 0, 0xC0, 0xFE, 24, 0, 0, 0];
  }

  lemma TwoWalked()
    ensures Readable(TwoAtOneAddress()) && End(TwoAtOneAddress()) == 68
    ensures Ends(TwoAtOneAddress(), 44) && EndsOrFills(TwoAtOneAddress(), 44, 8)
    ensures FirstIoApics(TwoAtOneAddress(), 44, 8) == [FIRST, SECOND]
  {
    hide TwoAtOneAddress, Readable, End, LengthAt, IoApicHead;
    TwoRecords();
    var mem := TwoAtOneAddress();
    NoneFirst(mem, 68, 6);
    assert FirstIoApics(mem, 56, 7) == [SECOND] + FirstIoApics(mem, 68, 6);
    assert FirstIoApics(mem, 44, 8) == [FIRST] + FirstIoApics(mem, 56, 7);
  }

  /** The source accepts that table.  Initialization leaves a right copy, and one call for interrupt 0 makes
      it wrong: asked for interrupt 24, the driver answers 0x20, while the hardware delivers 0x31. */
  method SharedAddressDiverges() returns (info: IoApicInfo, answer: bv8)
    ensures fresh(info) && info.Usable() && !info.InSync() && answer == 0x20
    ensures info.RouteOf(24).Some? && info.RouteOf(24).value.vector == 0x31
  {
    hide Readable, EndsOrFills, DetectionEnds, Detected, FitsOne, At, EntryCount, Ready, Sized, Shadows, Layout, Locate;
    hide StepTo, Routed, Copied, InitialRouting, CountedAlike, TwoAtOneAddress;
    var hw: map<Reg, bv32> := map[Reg(DEFAULT_ADDRESS, VER) := 0x00170011];
    info := new IoApicInfo(hw);
    TwoDetected(info.ioapics[0].id);
    TwentyFour(hw);
    info.Init(Some(TwoAtOneAddress()));
    ghost var hw0, cs := info.hw, info.Active();
    TwoCounts(cs, hw0, hw);
    info.SetIrq(0, 0x31, 0, false, false);
    TwoDiverge(hw0, cs, info.hw, info.Active());
    answer := info.GetVector(24);
  }

  lemma TwentyFour(hw: map<Reg, bv32>)
    requires hw == map[Reg(DEFAULT_ADDRESS, VER) := 0x00170011]
    ensures FitsOne(FIRST, hw) && FitsOne(SECOND, hw)
  {}

  lemma TwoCounts(cs: seq<Controller>, hw: map<Reg, bv32>, start: map<Reg, bv32>)
    requires start == map[Reg(DEFAULT_ADDRESS, VER) := 0x00170011]
    requires forall r: Reg :: r.index < REDTBL_BASE ==> At(hw, r) == At(start, r)
    requires |cs| == 2 && Describes(cs[0], FIRST) && Describes(cs[1], SECOND) && Ready(cs[0], hw) && Ready(cs[1], hw)
    ensures cs[0].entries == 24 && cs[1].entries == 24
  {
    TwentyFour(start);
    assert At(start, Reg(DEFAULT_ADDRESS, VER)) == 0x00170011;
  }

  lemma TwoDiverge(hw: map<Reg, bv32>, cs: seq<Controller>, hw': map<Reg, bv32>, cs': seq<Controller>)
    requires |cs| == 2 && Describes(cs[0], FIRST) && Describes(cs[1], SECOND)
    requires cs[0].entries == 24 && cs[1].entries == 24
    requires Sized(cs) && Sized(cs') && Shadows(hw, cs) && Routed(hw, cs, 24) == InitialRouting(cs, 24)
    requires StepTo(hw, cs, hw', cs', 0, SetIrq(0x31, 0, false, false))
    ensures Copied(cs', 24).Some? && Copied(cs', 24).value.vector == 0x20
    ensures Routed(hw', cs', 24).Some? && Routed(hw', cs', 24).value.vector == 0x31 && !Shadows(hw', cs')
  {
    hide ReadEntry, WriteEntry, Meaning, Shadows, Sized;
    LocateIs(cs, 0, 0);
    LocateIs(cs, 24, 1);
    var e := ReadEntry(hw', DEFAULT_ADDRESS, 0);
    StoredLocate(cs, 0, 0, e, 24);
    CopiedIsRouted(hw, cs, 24);
    if Shadows(hw', cs') {
      CopiedIsRouted(hw', cs', 24);
    }
  }
}
