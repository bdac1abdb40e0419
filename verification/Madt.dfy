/** Walking the multiple APIC description table (section 5.2.12 of the ACPI specification): the walkers of
    src/drivers/acpi.c, on any bytes.  The detection loop of src/drivers/ioapic.c is in module
    IoApicDriver. */
module Madt {
  import opened MachineTypes

  const HEADER_SIZE := 44
  const LOCAL_APIC: Octet := 0
  const IO_APIC: Octet := 1
  const INT_OVERRIDE: Octet := 2

  /** The furthest a walker reads from the start of a record it looks into. */
  const REACH := 12

  function Little16(mem: seq<Octet>, at: nat): nat
    requires at + 2 <= |mem|
  {
    mem[at] as nat + 0x100 * mem[at + 1] as nat
  }

  function Little32(mem: seq<Octet>, at: nat): nat
    requires at + 4 <= |mem|
  {
    Little16(mem, at) + 0x10000 * Little16(mem, at + 2)
  }

  /** The memory from the start of the table: all of the table, and as far behind it as a record in its last
      byte makes a walker read. */
  predicate Readable(mem: seq<Octet>) {
    |mem| >= 8 && Little32(mem, 4) + REACH <= |mem|
  }

  /** Where the walk is over: the length the header gives. */
  function End(mem: seq<Octet>): (end: nat)
    requires Readable(mem)
    ensures end + REACH <= |mem|
  {
    Little32(mem, 4)
  }

  /** The length the record at `at` gives itself. */
  function LengthAt(mem: seq<Octet>, at: nat): nat
    requires Readable(mem) && at < End(mem)
  {
    mem[at + 1] as nat
  }

  datatype IoApic = IoApic(id: Octet, address: nat, gsiBase: nat)

  datatype Override = Override(source: Octet, gsi: nat, flags: nat)

  function IoApicAt(mem: seq<Octet>, at: nat): IoApic
    requires at + REACH <= |mem|
  {
    IoApic(mem[at + 2], Little32(mem, at + 4), Little32(mem, at + 8))
  }

  function OverrideAt(mem: seq<Octet>, at: nat): Override
    requires at + REACH <= |mem|
  {
    Override(mem[at + 3], Little32(mem, at + 4), Little16(mem, at + 8))
  }

  // What one record contributes to each walk.

  function IoApicHead(mem: seq<Octet>, at: nat): seq<IoApic>
    requires at + REACH <= |mem|
  {
    if mem[at] == IO_APIC then [IoApicAt(mem, at)] else []
  }

  function OverrideHead(mem: seq<Octet>, at: nat): seq<Override>
    requires at + REACH <= |mem|
  {
    if mem[at] == INT_OVERRIDE then [OverrideAt(mem, at)] else []
  }

  predicate IsEnabledCpu(mem: seq<Octet>, at: nat)
    requires at + REACH <= |mem|
  {
    mem[at] == LOCAL_APIC && mem[at + 4] % 2 == 1
  }

  // ---------- When a walk ends ----------

  /** Where a walker stands after `n` turns of its loop. */
  function Position(mem: seq<Octet>, n: nat): nat
    requires Readable(mem)
  {
    if n == 0 then HEADER_SIZE
    else
      var at := Position(mem, n - 1);
      if at < End(mem) then at + LengthAt(mem, at) else at
  }

  /** From `at` the walk comes to the end: no record it reaches has length zero. */
  predicate Ends(mem: seq<Octet>, at: nat)
    requires Readable(mem)
    decreases End(mem) - at
  {
    at < End(mem) ==> LengthAt(mem, at) > 0 && Ends(mem, at + LengthAt(mem, at))
  }

  predicate WalkEnds(mem: seq<Octet>) {
    Readable(mem) && Ends(mem, HEADER_SIZE)
  }

  /** No record the walk reaches before the end has length zero. */
  ghost predicate NeverStuck(mem: seq<Octet>)
    requires Readable(mem)
  {
    forall n: nat :: Position(mem, n) < End(mem) ==> LengthAt(mem, Position(mem, n)) > 0
  }

  /** On arbitrary bytes the walk reaches the end of the table exactly when no record that it reaches before
      the end has length zero. */
  lemma WalkEndsIff(mem: seq<Octet>)
    requires Readable(mem)
    ensures (exists n: nat :: Position(mem, n) >= End(mem)) <==> NeverStuck(mem)
    ensures WalkEnds(mem) <==> NeverStuck(mem)
  {
    hide End, LengthAt, NeverStuck;
    if WalkEnds(mem) {
      NotStuck(mem);
    }
    if n: nat :| Position(mem, n) >= End(mem) {
      EndsEarlier(mem, n);
    }
    if NeverStuck(mem) {
      Advances(mem, End(mem));
      EndsEarlier(mem, End(mem));
    }
  }

  lemma NotStuck(mem: seq<Octet>)
    requires WalkEnds(mem)
    ensures NeverStuck(mem)
  {
    forall n: nat | Position(mem, n) < End(mem) ensures LengthAt(mem, Position(mem, n)) > 0 {
      EndsLater(mem, n);
    }
  }

  lemma {:induction false} EndsLater(mem: seq<Octet>, n: nat)
    requires WalkEnds(mem)
    ensures Ends(mem, Position(mem, n))
  {
    hide LengthAt;
    if n > 0 {
      EndsLater(mem, n - 1);
    }
  }

  lemma {:induction false} Advances(mem: seq<Octet>, n: nat)
    requires Readable(mem) && NeverStuck(mem)
    ensures Position(mem, n) >= End(mem) || Position(mem, n) >= HEADER_SIZE + n
  {
    hide LengthAt, End;
    if n > 0 {
      Advances(mem, n - 1);
      assert Position(mem, n - 1) < End(mem) ==> LengthAt(mem, Position(mem, n - 1)) > 0;
    }
  }

  /** A walker that is past the end after n turns was on a walk that ends. */
  lemma {:induction false} EndsEarlier(mem: seq<Octet>, n: nat)
    requires Readable(mem) && Ends(mem, Position(mem, n))
    ensures WalkEnds(mem)
  {
    hide LengthAt;
    if n > 0 {
      var at := Position(mem, n - 1);
      StuckOrEnds(mem, at);
      EndsEarlier(mem, n - 1);
    }
  }

  lemma StuckOrEnds(mem: seq<Octet>, at: nat)
    requires Readable(mem) && (at < End(mem) ==> Ends(mem, at + LengthAt(mem, at)))
    ensures Ends(mem, at)
  {
    if at < End(mem) && LengthAt(mem, at) == 0 {
      assert at + LengthAt(mem, at) == at;
    }
  }

  /** A table of one record of length zero: every turn leaves the walker where it is. */
  function Stuck(): seq<Octet> {
    [0x41, 0x50, 0x49, 0x43, 46, 0, 0, 0] + seq(50, _ => 0)
  }

  lemma {:induction false} ZeroLengthNeverEnds(n: nat)
    ensures Readable(Stuck()) && End(Stuck()) == 46
    ensures Position(Stuck(), n) == HEADER_SIZE && !WalkEnds(Stuck())
  {
    if n > 0 {
      ZeroLengthNeverEnds(n - 1);
    }
  }

  // ---------- What a walk reports ----------

  /** The I/O APICs from `at` on, in order. */
  function IoApics(mem: seq<Octet>, at: nat): seq<IoApic>
    requires Readable(mem) && Ends(mem, at)
    decreases End(mem) - at
  {
    if at >= End(mem) then [] else IoApicHead(mem, at) + IoApics(mem, at + LengthAt(mem, at))
  }

  function Overrides(mem: seq<Octet>, at: nat): seq<Override>
    requires Readable(mem) && Ends(mem, at)
    decreases End(mem) - at
  {
    if at >= End(mem) then [] else OverrideHead(mem, at) + Overrides(mem, at + LengthAt(mem, at))
  }

  /** How many processors are enabled. */
  function EnabledCpus(mem: seq<Octet>, at: nat): nat
    requires Readable(mem) && Ends(mem, at)
    decreases End(mem) - at
  {
    if at >= End(mem) then 0
    else (if IsEnabledCpu(mem, at) then 1 else 0) + EnabledCpus(mem, at + LengthAt(mem, at))
  }

  /** One record further: it contributes what it holds. */
  lemma NextRecord(mem: seq<Octet>, at: nat)
    requires Readable(mem) && Ends(mem, at) && at < End(mem)
    ensures
      var next := at + LengthAt(mem, at);
      && LengthAt(mem, at) > 0 && Ends(mem, next)
      && IoApics(mem, at) == IoApicHead(mem, at) + IoApics(mem, next)
      && Overrides(mem, at) == OverrideHead(mem, at) + Overrides(mem, next)
      && EnabledCpus(mem, at) == (if IsEnabledCpu(mem, at) then 1 else 0) + EnabledCpus(mem, next)
  {
    hide End, LengthAt, IoApicHead, OverrideHead, IsEnabledCpu;
  }

  lemma NoRecord(mem: seq<Octet>, at: nat)
    requires Readable(mem) && at >= End(mem)
    ensures Ends(mem, at) && IoApics(mem, at) == [] && Overrides(mem, at) == [] && EnabledCpus(mem, at) == 0
  {}

  lemma Reassociate<T>(a: seq<T>, b: seq<T>, c: seq<T>)
    ensures (a + b) + c == a + (b + c)
  {}

  /** acpi_enumerate_io_apics: the calls made to the callback. */
  method EnumerateIoApics(mem: seq<Octet>) returns (calls: seq<IoApic>)
    requires WalkEnds(mem)
    ensures calls == IoApics(mem, HEADER_SIZE)
  {
    hide Little32, IoApicAt, Ends, IoApics;
    calls := [];
    var entry, end := HEADER_SIZE, End(mem);
    while entry < end
      invariant Ends(mem, entry)
      invariant IoApics(mem, HEADER_SIZE) == calls + IoApics(mem, entry)
      decreases end - entry
    {
      NextRecord(mem, entry);
      Reassociate(calls, IoApicHead(mem, entry), IoApics(mem, entry + LengthAt(mem, entry)));
      if mem[entry] == IO_APIC {
        calls := calls + [IoApicAt(mem, entry)];
      }
      entry := entry + mem[entry + 1] as nat;
    }
    NoRecord(mem, entry);
  }

  /** acpi_enumerate_interrupt_overrides */
  method EnumerateOverrides(mem: seq<Octet>) returns (calls: seq<Override>)
    requires WalkEnds(mem)
    ensures calls == Overrides(mem, HEADER_SIZE)
  {
    hide Little32, OverrideAt, Ends, Overrides;
    calls := [];
    var entry, end := HEADER_SIZE, End(mem);
    while entry < end
      invariant Ends(mem, entry)
      invariant Overrides(mem, HEADER_SIZE) == calls + Overrides(mem, entry)
      decreases end - entry
    {
      NextRecord(mem, entry);
      Reassociate(calls, OverrideHead(mem, entry), Overrides(mem, entry + LengthAt(mem, entry)));
      if mem[entry] == INT_OVERRIDE {
        calls := calls + [OverrideAt(mem, entry)];
      }
      entry := entry + mem[entry + 1] as nat;
    }
    NoRecord(mem, entry);
  }

  /** An 8-bit counter's value. */
  function Wrap8(n: nat): nat {
    n % 0x100
  }

  lemma Wrap8Laws(n: nat)
    ensures Wrap8(0) == 0 && Wrap8(Wrap8(n) + 1) == Wrap8(n + 1)
  {}

  /** The processor count of acpi_init, in its 8-bit counter. */
  method CountCpus(mem: seq<Octet>) returns (cpuCount: nat)
    requires WalkEnds(mem)
    ensures cpuCount == Wrap8(EnabledCpus(mem, HEADER_SIZE))
  {
    hide Little32, IsEnabledCpu, Wrap8, Ends, EnabledCpus;
    ghost var counted: nat := 0;
    cpuCount := 0;
    Wrap8Laws(0);
    var entry, end := HEADER_SIZE, End(mem);
    while entry < end
      invariant Ends(mem, entry) && cpuCount == Wrap8(counted)
      invariant EnabledCpus(mem, HEADER_SIZE) == counted + EnabledCpus(mem, entry)
      decreases end - entry
    {
      NextRecord(mem, entry);
      if IsEnabledCpu(mem, entry) {
        Wrap8Laws(counted);
        cpuCount := Wrap8(cpuCount + 1);
        counted := counted + 1;
      }
      entry := entry + mem[entry + 1] as nat;
    }
    NoRecord(mem, entry);
  }

  // ---------- The walk that stops when it has enough ----------

  /** The walk from `at` comes to the end or to `room` I/O APICs. */
  predicate EndsOrFills(mem: seq<Octet>, at: nat, room: nat)
    requires Readable(mem)
    decreases End(mem) - at
  {
    at < End(mem) && room > 0 ==>
      LengthAt(mem, at) > 0 && EndsOrFills(mem, at + LengthAt(mem, at), room - |IoApicHead(mem, at)|)
  }

  /** The first `room` I/O APICs from `at` on, or all of them. */
  function FirstIoApics(mem: seq<Octet>, at: nat, room: nat): (r: seq<IoApic>)
    requires Readable(mem) && EndsOrFills(mem, at, room)
    ensures |r| <= room
    decreases End(mem) - at
  {
    if at >= End(mem) || room == 0 then []
    else IoApicHead(mem, at) + FirstIoApics(mem, at + LengthAt(mem, at), room - |IoApicHead(mem, at)|)
  }

  lemma NextFirst(mem: seq<Octet>, at: nat, room: nat)
    requires Readable(mem) && EndsOrFills(mem, at, room) && at < End(mem) && room > 0
    ensures
      var next, left := at + LengthAt(mem, at), room - |IoApicHead(mem, at)|;
      && LengthAt(mem, at) > 0 && left >= 0 && EndsOrFills(mem, next, left)
      && FirstIoApics(mem, at, room) == IoApicHead(mem, at) + FirstIoApics(mem, next, left)
  {}

  lemma NoneFirst(mem: seq<Octet>, at: nat, room: nat)
    requires Readable(mem) && (at >= End(mem) || room == 0)
    ensures EndsOrFills(mem, at, room) && FirstIoApics(mem, at, room) == []
  {}

  /** Stopping early reports the first of what the whole walk reports. */
  lemma {:induction false} FirstOfAll(mem: seq<Octet>, at: nat, room: nat)
    requires Readable(mem) && Ends(mem, at)
    ensures EndsOrFills(mem, at, room)
    ensures var all := IoApics(mem, at); FirstIoApics(mem, at, room) == if |all| <= room then all else all[..room]
    decreases End(mem) - at
  {
    hide Little32, IoApicAt;
    if at < End(mem) && room > 0 {
      FirstOfAll(mem, at + LengthAt(mem, at), room - |IoApicHead(mem, at)|);
    }
  }

  // ---------- Serialized tables ----------

  /** A record as firmware lays it out. */
  predicate IsRecord(r: seq<Octet>) {
    |r| >= 2 && r[1] as nat == |r| && (r[0] == IO_APIC ==> |r| >= REACH)
  }

  function HeadOf(r: seq<Octet>): seq<IoApic>
    requires IsRecord(r)
  {
    if r[0] == IO_APIC then [IoApicAt(r, 0)] else []
  }

  function Concat(records: seq<seq<Octet>>): seq<Octet> {
    if records == [] then [] else records[0] + Concat(records[1..])
  }

  function IoApicsOf(records: seq<seq<Octet>>): seq<IoApic>
    requires forall i :: 0 <= i < |records| ==> IsRecord(records[i])
  {
    if records == [] then []
    else
      assert IsRecord(records[0]);
      HeadOf(records[0]) + IoApicsOf(records[1..])
  }

  /** Reading undoes laying out: over any records laid out up to the end of the table the walk ends, and the
      I/O APICs it reports are those of the records. */
  lemma {:induction false} RecordsReadBack(mem: seq<Octet>, at: nat, records: seq<seq<Octet>>)
    requires forall i :: 0 <= i < |records| ==> IsRecord(records[i])
    requires Readable(mem) && at + |Concat(records)| == End(mem) && mem[at..End(mem)] == Concat(records)
    ensures Ends(mem, at)
    ensures IoApics(mem, at) == IoApicsOf(records)
    decreases |records|
  {
    hide Little32, Readable, End, LengthAt, IoApicHead, HeadOf, IsRecord;
    if records != [] {
      var r, rest := records[0], Concat(records[1..]);
      assert IsRecord(r);
      Slices(mem, at, End(mem), r, rest);
      RecordsReadBack(mem, at + |r|, records[1..]);
      RecordRead(mem, at, r);
    }
  }

  lemma Slices(mem: seq<Octet>, at: nat, end: nat, r: seq<Octet>, rest: seq<Octet>)
    requires at <= end <= |mem| && mem[at..end] == r + rest
    ensures at + |r| <= end && mem[at + |r|..end] == rest && mem[at..at + |r|] == r
    ensures forall k :: 0 <= k < |r| ==> mem[at + k] == r[k]
  {
    assert end - at == |r| + |rest|;
    forall k | 0 <= k < |r| ensures mem[at + k] == r[k] {
      assert mem[at..end][k] == r[k];
    }
    forall k | 0 <= k < |rest| ensures mem[at + |r| + k] == rest[k] {
      assert mem[at..end][|r| + k] == rest[k];
    }
  }

  lemma RecordRead(mem: seq<Octet>, at: nat, r: seq<Octet>)
    requires Readable(mem) && IsRecord(r) && at + |r| <= End(mem) && forall k :: 0 <= k < |r| ==> mem[at + k] == r[k]
    ensures at < End(mem) && LengthAt(mem, at) == |r| > 0 && IoApicHead(mem, at) == HeadOf(r)
  {
    hide Little32, IoApicAt;
    assert mem[at + 0] == r[0];
    if r[0] == IO_APIC {
      SameIoApic(mem, at, r);
    }
  }

  lemma SameIoApic(mem: seq<Octet>, at: nat, r: seq<Octet>)
    requires |r| >= REACH && at + |r| <= |mem| && forall k :: 0 <= k < |r| ==> mem[at + k] == r[k]
    ensures IoApicAt(mem, at) == IoApicAt(r, 0)
  {
    assert mem[at + 2] == r[2] && mem[at + 4] == r[4] && mem[at + 5] == r[5] && mem[at + 6] == r[6];
    assert mem[at + 7] == r[7] && mem[at + 8] == r[8] && mem[at + 9] == r[9] && mem[at + 10] == r[10];
    assert mem[at + 11] == r[11];
  }

  // ---------- Tables as firmware builds them ----------

  /** A record of section 5.2.12 of the ACPI specification. */
  datatype Record =
    | LocalApic(processor: Octet, apic: Octet, flags: nat)
    | IoApicRecord(id: Octet, address: nat, gsiBase: nat)
    | SourceOverride(bus: Octet, source: Octet, gsi: nat, flags: nat)
    | Other(kind: Octet, body: seq<Octet>)

  predicate Encodable(r: Record) {
    match r
    case LocalApic(_, _, flags) => flags < TWO_TO_32
    case IoApicRecord(_, address, gsiBase) => address < TWO_TO_32 && gsiBase < TWO_TO_32
    case SourceOverride(_, _, gsi, flags) => gsi < TWO_TO_32 && flags < 0x10000
    case Other(kind, body) => kind > 2 && |body| <= 253
  }

  /** Its bytes: type, length, and the fields of the type. */
  function Encoded(r: Record): seq<Octet>
    requires Encodable(r)
  {
    match r
    case LocalApic(processor, apic, flags) => [0, 8, processor, apic] + LittleEndian(flags, 4)
    case IoApicRecord(id, address, gsiBase) => [1, 12, id, 0] + LittleEndian(address, 4) + LittleEndian(gsiBase, 4)
    case SourceOverride(bus, source, gsi, flags) =>
      [2, 10, bus, source] + LittleEndian(gsi, 4) + LittleEndian(flags, 2)
    case Other(kind, body) => [kind, (2 + |body|) as Octet] + body
  }

  function EncodedAll(records: seq<Record>): seq<Octet>
    requires forall r :: r in records ==> Encodable(r)
  {
    if records == [] then [] else Encoded(records[0]) + EncodedAll(records[1..])
  }

  function ListedIoApics(records: seq<Record>): seq<IoApic> {
    if records == [] then []
    else
      (match records[0]
       case IoApicRecord(id, address, gsiBase) => [IoApic(id, address, gsiBase)]
       case _ => []) + ListedIoApics(records[1..])
  }

  function ListedOverrides(records: seq<Record>): seq<Override> {
    if records == [] then []
    else
      (match records[0]
       case SourceOverride(_, source, gsi, flags) => [Override(source, gsi, flags)]
       case _ => []) + ListedOverrides(records[1..])
  }

  /** A processor is enabled if its lowest flag is set. */
  function ListedCpus(records: seq<Record>): nat {
    if records == [] then 0
    else (if records[0].LocalApic? && records[0].flags % 2 == 1 then 1 else 0) + ListedCpus(records[1..])
  }

  /** Reading undoes building: over the bytes of any records each walk ends and reports the records of its
      type, field by field. */
  lemma {:induction false} TableReadsBack(mem: seq<Octet>, at: nat, records: seq<Record>)
    requires forall r :: r in records ==> Encodable(r)
    requires Readable(mem) && at + |EncodedAll(records)| == End(mem) && mem[at..End(mem)] == EncodedAll(records)
    ensures Ends(mem, at) && IoApics(mem, at) == ListedIoApics(records)
    ensures Overrides(mem, at) == ListedOverrides(records) && EnabledCpus(mem, at) == ListedCpus(records)
    decreases |records|
  {
    hide Readable, End, LengthAt, IoApicHead, OverrideHead, IsEnabledCpu, Encoded, Encodable;
    if records != [] {
      var r := records[0];
      assert Encodable(r);
      Slices(mem, at, End(mem), Encoded(r), EncodedAll(records[1..]));
      RecordReadsBack(mem, at, r);
      TableReadsBack(mem, at + LengthAt(mem, at), records[1..]);
    }
  }

  lemma RecordReadsBack(mem: seq<Octet>, at: nat, r: Record)
    requires Encodable(r) && Readable(mem) && at + |Encoded(r)| <= End(mem)
    requires forall k :: 0 <= k < |Encoded(r)| ==> mem[at + k] == Encoded(r)[k]
    ensures at < End(mem) && LengthAt(mem, at) == |Encoded(r)| > 0
    ensures IoApicHead(mem, at) == match r
      case IoApicRecord(id, address, gsiBase) => [IoApic(id, address, gsiBase)]
      case _ => []
    ensures OverrideHead(mem, at) == match r
      case SourceOverride(_, source, gsi, flags) => [Override(source, gsi, flags)]
      case _ => []
    ensures IsEnabledCpu(mem, at) <==> r.LocalApic? && r.flags % 2 == 1
  {
    hide Little32, Little16, LittleEndian;
    var b := Encoded(r);
    assert mem[at + 0] == b[0] && mem[at + 1] == b[1];
    match r
    case LocalApic(_, _, flags) =>
      assert mem[at + 4] == b[4];
      LittleEndianSplits(flags, 4);
      LowestBit(flags);
    case IoApicRecord(id, address, gsiBase) =>
      assert mem[at + 2] == b[2];
      NumberReadsBack(mem, at, b, 4, address);
      NumberReadsBack(mem, at, b, 8, gsiBase);
    case SourceOverride(_, source, gsi, flags) =>
      assert mem[at + 3] == b[3];
      NumberReadsBack(mem, at, b, 4, gsi);
      ShortReadsBack(mem, at, b, 8, flags);
    case Other(_, _) =>
  }

  lemma LowestBit(n: nat)
    ensures n % 0x100 % 2 == n % 2
  {}

  lemma ShortReadsBack(mem: seq<Octet>, at: nat, b: seq<Octet>, i: nat, n: nat)
    requires i + 2 <= |b| && at + |b| <= |mem| && n < 0x10000 && b[i..i + 2] == LittleEndian(n, 2)
    requires forall k :: 0 <= k < |b| ==> mem[at + k] == b[k]
    ensures Little16(mem, at + i) == n
  {
    hide LittleEndian;
    LittleEndianSplits(n, 2);
    LittleEndianSplits(n / 0x100, 1);
    var c := b[i..i + 2];
    assert mem[at + i] == b[i] == c[0] && mem[at + (i + 1)] == b[i + 1] == c[1] == c[1..][0];
  }

  lemma NumberReadsBack(mem: seq<Octet>, at: nat, b: seq<Octet>, i: nat, n: nat)
    requires i + 4 <= |b| && at + |b| <= |mem| && n < TWO_TO_32 && b[i..i + 4] == LittleEndian(n, 4)
    requires forall k :: 0 <= k < |b| ==> mem[at + k] == b[k]
    ensures Little32(mem, at + i) == n
  {
    hide LittleEndian;
    LittleEndianSplits(n, 4);
    LittleEndianSplits(n / 0x100, 3);
    LittleEndianSplits(n / 0x100 / 0x100, 2);
    LittleEndianSplits(n / 0x100 / 0x100 / 0x100, 1);
    var c := b[i..i + 4];
    assert mem[at + i] == b[i] == c[0] && mem[at + (i + 1)] == b[i + 1] == c[1] == c[1..][0];
    assert mem[at + (i + 2)] == b[i + 2] == c[2] == c[1..][1..][0];
    assert mem[at + (i + 3)] == b[i + 3] == c[3] == c[1..][1..][1..][0];
    FourDigits(n);
  }

  lemma FourDigits(n: nat)
    requires n < TWO_TO_32
    ensures n == n % 0x100 + 0x100 * (n / 0x100 % 0x100) +
      0x10000 * (n / 0x100 / 0x100 % 0x100 + 0x100 * (n / 0x100 / 0x100 / 0x100 % 0x100))
  {}
}
