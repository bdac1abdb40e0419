/** The transmit ring of arch/rt1170/enet.c.  Callers take turns under a lock; the hardware reads
    descriptors it owns in ring order, byte by byte, and hands each one back when its frame is out. */
module EnetTx {
  import opened MachineTypes

  const RING_SIZE := 32
  const BUFFER_SIZE := 1536
  /** The ownership bit of td[2]; the length is below it. */
  const OWNED := 0x8000

  /** Where the caller holding the lock stands in enet_tx. */
  datatype Sender =
    | NotSending
    | Waiting(pkt: seq<Byte>)               // polling enet_tx_free
    | Copying(pkt: seq<Byte>, copied: nat)  // inside memcpy
    | Published                             // td[2] written, tx_idx not yet advanced

  /** `td2` and `buffers` are the ring, `hwIndex` and `hwSent` the hardware's position and the bytes of
      its current frame already on the wire.  `submitted` lists the packets handed over, `wire` the
      frames that left. */
  datatype State = State(
    td2: seq<nat>, buffers: seq<seq<Byte>>, txIdx: nat, sender: Sender,
    hwIndex: nat, hwSent: seq<Byte>,
    submitted: seq<seq<Byte>>, wire: seq<seq<Byte>>)

  datatype Action =
    | BeginTx(pkt: seq<Byte>)  // lock taken
    | Poll                     // one evaluation of enet_tx_free
    | CopyByte                 // one byte of memcpy
    | Publish                  // td[2] = owned | len
    | Advance                  // tx_idx moved on, lock released
    | HwByte                   // the hardware reads one byte of the frame it owns
    | HwDone                   // the frame is out; the hardware clears the ownership bit

  predicate Owned(td2: nat) {
    td2 / OWNED % 2 == 1
  }

  function Length(td2: nat): nat {
    td2 % OWNED
  }

  function Slot(base: nat, k: nat): (slot: nat)
    ensures slot < RING_SIZE
  {
    (base + k) % RING_SIZE
  }

  predicate Shaped(s: State) {
    && |s.td2| == RING_SIZE && |s.buffers| == RING_SIZE
    && (forall i :: 0 <= i < RING_SIZE ==> |s.buffers[i]| == BUFFER_SIZE)
    && s.txIdx < RING_SIZE && s.hwIndex < RING_SIZE
  }

  predicate Enabled(s: State, a: Action)
    requires Shaped(s)
  {
    match a
    case BeginTx(pkt) => s.sender.NotSending? && |pkt| <= BUFFER_SIZE
    case Poll => s.sender.Waiting?
    case CopyByte => s.sender.Copying? && s.sender.copied < |s.sender.pkt| <= BUFFER_SIZE
    case Publish => s.sender.Copying? && s.sender.copied == |s.sender.pkt|
    case Advance => s.sender.Published?
    case HwByte =>
      Owned(s.td2[s.hwIndex]) && |s.hwSent| < Length(s.td2[s.hwIndex]) && |s.hwSent| < BUFFER_SIZE
    case HwDone => Owned(s.td2[s.hwIndex]) && |s.hwSent| == Length(s.td2[s.hwIndex])
  }

  function Next(s: State, a: Action): State
    requires Shaped(s) && Enabled(s, a)
  {
    match a
    case BeginTx(pkt) => s.(sender := Waiting(pkt))
    case Poll => if Owned(s.td2[s.txIdx]) then s else s.(sender := Copying(s.sender.pkt, 0))
    case CopyByte =>
      var i := s.sender.copied;
      s.(buffers := s.buffers[s.txIdx := s.buffers[s.txIdx][i := s.sender.pkt[i]]],
         sender := s.sender.(copied := i + 1))
    case Publish =>
      s.(td2 := s.td2[s.txIdx := OWNED + |s.sender.pkt|], sender := Published,
         submitted := s.submitted + [s.sender.pkt])
    case Advance => s.(txIdx := Slot(s.txIdx, 1), sender := NotSending)
    case HwByte => s.(hwSent := s.hwSent + [s.buffers[s.hwIndex][|s.hwSent|]])
    case HwDone =>
      s.(td2 := s.td2[s.hwIndex := Length(s.td2[s.hwIndex])], hwIndex := Slot(s.hwIndex, 1),
         wire := s.wire + [s.hwSent], hwSent := [])
  }

  /** After enet_init_desc. */
  predicate Initial(s: State) {
    && Shaped(s)
    && (forall i :: 0 <= i < RING_SIZE ==> s.td2[i] == 0)
    && s.txIdx == 0 && s.hwIndex == 0 && s.sender == NotSending
    && s.hwSent == [] && s.submitted == [] && s.wire == []
  }

  // ---------- The invariant ----------

  function Pending(s: State): int {
    |s.submitted| - |s.wire|
  }

  /** The slot the next packet goes into. */
  function WriteSlot(s: State): nat {
    if s.sender.Published? then Slot(s.txIdx, 1) else s.txIdx
  }

  /** The slots the hardware owns are the pending ones, a cyclic run from the hardware's position up to
      the slot written next. */
  predicate OwnedRun(s: State)
    requires Shaped(s)
  {
    && 0 <= Pending(s) <= RING_SIZE
    && Slot(s.hwIndex, Pending(s)) == WriteSlot(s)
    && forall k :: 0 <= k < RING_SIZE ==> (Owned(s.td2[Slot(s.hwIndex, k)]) <==> k < Pending(s))
  }

  /** Each pending slot holds its packet, in the order of submission, and what has left are the first
      submitted packets. */
  predicate Frames(s: State)
    requires Shaped(s) && 0 <= Pending(s) <= RING_SIZE
  {
    && s.wire == s.submitted[..|s.wire|]
    && forall k :: 0 <= k < Pending(s) ==> Carries(s, Slot(s.hwIndex, k), s.submitted[|s.wire| + k])
  }

  /** Slot `i` holds the packet, with the descriptor word that says so. */
  predicate Carries(s: State, i: nat, pkt: seq<Byte>)
    requires Shaped(s) && i < RING_SIZE
  {
    |pkt| <= BUFFER_SIZE && s.td2[i] == OWNED + |pkt| && s.buffers[i][..|pkt|] == pkt
  }

  predicate Inv(s: State) {
    && Shaped(s) && OwnedRun(s) && Frames(s)
    && (s.sender.Waiting? ==> |s.sender.pkt| <= BUFFER_SIZE)
    && (s.sender.Copying? ==>
          && s.sender.copied <= |s.sender.pkt| <= BUFFER_SIZE
          && Pending(s) < RING_SIZE
          && s.buffers[s.txIdx][..s.sender.copied] == s.sender.pkt[..s.sender.copied])
    && (s.hwSent != [] ==> Pending(s) > 0)
    && (Pending(s) > 0 ==> s.hwSent <= s.submitted[|s.wire|])
  }

  lemma SlotDistinct(base: nat, i: nat, k: nat)
    requires i < k < RING_SIZE
    ensures Slot(base, i) != Slot(base, k)
  {
    var p, q := (base + i) / RING_SIZE, (base + k) / RING_SIZE;
    assert base + i == RING_SIZE * p + Slot(base, i);
    assert base + k == RING_SIZE * q + Slot(base, k);
  }

  lemma SlotSlot(base: nat, i: nat, k: nat)
    ensures Slot(Slot(base, i), k) == Slot(base, i + k)
  {
    var q := (base + i) / RING_SIZE;
    assert base + i == RING_SIZE * q + Slot(base, i);
    var p := (Slot(base, i) + k) / RING_SIZE;
    assert base + (i + k) == RING_SIZE * (q + p) + (Slot(base, i) + k) % RING_SIZE;
  }

  lemma SlotWraps(base: nat)
    requires base < RING_SIZE
    ensures Slot(base, RING_SIZE) == Slot(base, 0) == base
  {}

  /** The ownership bit is bit 15 of the word, and the length is the 15 bits below. */
  lemma DescriptorBits(td2: nat)
    ensures Owned(td2) <==> td2 % 0x10000 >= 0x8000
    ensures Length(td2) == td2 % 0x8000
  {
    var q, r := td2 / 0x8000, td2 % 0x8000;
    var h, b := q / 2, q % 2;
    SplitWord(h, b, r);
  }

  lemma SplitWord(h: nat, b: nat, r: nat)
    requires b < 2 && r < 0x8000
    ensures (0x10000 * h + 0x8000 * b + r) % 0x10000 == 0x8000 * b + r
  {}

  lemma OwnedBit(len: nat)
    requires len <= BUFFER_SIZE
    ensures Owned(OWNED + len) && Length(OWNED + len) == len && !Owned(len) && Length(len) == len
  {}

  // ---------- Every step keeps the invariant ----------

  /** A step that leaves the ring alone. */
  lemma SameRing(s: State, t: State)
    requires Inv(s) && WriteSlot(t) == WriteSlot(s)
    requires t == s.(txIdx := t.txIdx, sender := t.sender, hwSent := t.hwSent) && t.txIdx < RING_SIZE
    ensures Shaped(t) && OwnedRun(t) && Frames(t)
  {
    hide Slot, Owned, Length, WriteSlot;
    assert Pending(t) == Pending(s);
    forall k | 0 <= k < RING_SIZE
      ensures Owned(t.td2[Slot(t.hwIndex, k)]) <==> k < Pending(t)
    {
      assert Owned(s.td2[Slot(s.hwIndex, k)]) <==> k < Pending(s);
    }
    forall k | 0 <= k < Pending(t)
      ensures Carries(t, Slot(t.hwIndex, k), t.submitted[|t.wire| + k])
    {
      assert Carries(s, Slot(s.hwIndex, k), s.submitted[|s.wire| + k]);
    }
  }

  lemma PendingBounds(s: State)
    requires Inv(s)
    ensures 0 <= Pending(s) <= RING_SIZE
  {
    hide Slot, Owned;
  }

  lemma PollKeeps(s: State)
    requires Inv(s) && Enabled(s, Poll)
    ensures Inv(Next(s, Poll))
  {
    hide Slot, Owned, Length, OwnedRun, Frames;
    SameRing(s, Next(s, Poll));
    PendingBounds(s);
    if Pending(s) == RING_SIZE {
      FullRing(s);
    }
  }

  lemma FullRing(s: State)
    requires Inv(s) && Pending(s) == RING_SIZE && !s.sender.Published?
    ensures Owned(s.td2[s.txIdx])
  {
    hide Slot, Owned, Length;
    SlotWraps(s.hwIndex);
    assert Owned(s.td2[Slot(s.hwIndex, 0)]);
  }

  lemma CopyByteKeeps(s: State)
    requires Inv(s) && Enabled(s, CopyByte)
    ensures Inv(Next(s, CopyByte))
  {
    hide Slot, Owned, Length;
    var t, i := Next(s, CopyByte), s.sender.copied;
    forall k | 0 <= k < Pending(t)
      ensures Carries(t, Slot(t.hwIndex, k), t.submitted[|t.wire| + k])
    {
      SlotDistinct(s.hwIndex, k, Pending(s));
      assert Carries(s, Slot(s.hwIndex, k), s.submitted[|s.wire| + k]);
    }
    forall k | 0 <= k < RING_SIZE
      ensures Owned(t.td2[Slot(t.hwIndex, k)]) <==> k < Pending(t)
    {
      assert Owned(s.td2[Slot(s.hwIndex, k)]) <==> k < Pending(s);
    }
    assert t.buffers[s.txIdx][..i + 1] == s.buffers[s.txIdx][..i] + [s.sender.pkt[i]];
    assert s.sender.pkt[..i + 1] == s.sender.pkt[..i] + [s.sender.pkt[i]];
  }

  lemma PublishKeeps(s: State)
    requires Inv(s) && Enabled(s, Publish)
    ensures Inv(Next(s, Publish))
  {
    hide Slot, Owned, Length;
    var t, p := Next(s, Publish), Pending(s);
    OwnedBit(|s.sender.pkt|);
    SlotSlot(s.hwIndex, p, 1);
    assert s.sender.pkt[..|s.sender.pkt|] == s.sender.pkt;
    forall k | 0 <= k < RING_SIZE
      ensures Owned(t.td2[Slot(t.hwIndex, k)]) <==> k < Pending(t)
      ensures k != p ==> Slot(s.hwIndex, k) != s.txIdx
    {
      if k < p { SlotDistinct(s.hwIndex, k, p); } else if p < k { SlotDistinct(s.hwIndex, p, k); }
      assert Owned(s.td2[Slot(s.hwIndex, k)]) <==> k < Pending(s);
    }
    forall k | 0 <= k < Pending(t)
      ensures Carries(t, Slot(t.hwIndex, k), t.submitted[|t.wire| + k])
    {
      if k < p {
        assert Carries(s, Slot(s.hwIndex, k), s.submitted[|s.wire| + k]);
      }
    }
  }

  /** The hardware is reading the first packet that has not left. */
  lemma FirstSlot(s: State)
    requires Inv(s) && Owned(s.td2[s.hwIndex])
    ensures Pending(s) > 0 && Carries(s, s.hwIndex, s.submitted[|s.wire|])
    ensures Length(s.td2[s.hwIndex]) == |s.submitted[|s.wire|]|
  {
    hide Slot, Owned, Length;
    SlotWraps(s.hwIndex);
    assert Owned(s.td2[Slot(s.hwIndex, 0)]) <==> 0 < Pending(s);
    assert Carries(s, Slot(s.hwIndex, 0), s.submitted[|s.wire| + 0]);
    OwnedBit(|s.submitted[|s.wire|]|);
  }

  lemma HwByteKeeps(s: State)
    requires Inv(s) && Enabled(s, HwByte)
    ensures Inv(Next(s, HwByte))
  {
    hide Slot, Owned, Length, OwnedRun, Frames;
    FirstSlot(s);
    SameRing(s, Next(s, HwByte));
    var pkt, n := s.submitted[|s.wire|], |s.hwSent|;
    assert s.buffers[s.hwIndex][..|pkt|][n] == pkt[n];
  }

  /** When the hardware hands back its first slot, the k-th slot of the run becomes slot k - 1. */
  lemma RunShifts(hwIndex: nat, k: nat)
    requires hwIndex < RING_SIZE && k < RING_SIZE
    ensures Slot(Slot(hwIndex, 1), k) == Slot(hwIndex, k + 1)
    ensures k < RING_SIZE - 1 ==> Slot(Slot(hwIndex, 1), k) != hwIndex
    ensures k == RING_SIZE - 1 ==> Slot(Slot(hwIndex, 1), k) == hwIndex
  {
    hide Slot;
    SlotSlot(hwIndex, 1, k);
    SlotWraps(hwIndex);
    if k < RING_SIZE - 1 { SlotDistinct(hwIndex, 0, k + 1); }
  }

  lemma HwDoneFrame(s: State)
    requires Inv(s) && Enabled(s, HwDone)
    ensures Pending(s) > 0 && s.hwSent == s.submitted[|s.wire|]
    ensures !Owned(Next(s, HwDone).td2[s.hwIndex])
  {
    hide Slot, Owned, Length;
    FirstSlot(s);
    OwnedBit(|s.submitted[|s.wire|]|);
  }

  lemma HwDoneOwnedRun(s: State)
    requires Inv(s) && Enabled(s, HwDone)
    ensures Shaped(Next(s, HwDone)) && OwnedRun(Next(s, HwDone))
  {
    hide Slot, Owned, Length, Frames;
    var t, p := Next(s, HwDone), Pending(s);
    HwDoneFrame(s);
    SlotSlot(s.hwIndex, 1, p - 1);
    forall k | 0 <= k < RING_SIZE
      ensures Owned(t.td2[Slot(t.hwIndex, k)]) <==> k < Pending(t)
    {
      RunShifts(s.hwIndex, k);
      if k < RING_SIZE - 1 {
        assert Owned(s.td2[Slot(s.hwIndex, k + 1)]) <==> k + 1 < Pending(s);
      }
    }
  }

  lemma HwDoneFrames(s: State)
    requires Inv(s) && Enabled(s, HwDone)
    ensures Pending(s) > 0 && Frames(Next(s, HwDone))
  {
    hide Slot, Owned, Length, OwnedRun;
    HwDoneFrame(s);
    HwDoneOwnedRun(s);
    PendingBounds(s);
    var t := Next(s, HwDone);
    forall k | 0 <= k < Pending(t)
      ensures Carries(t, Slot(t.hwIndex, k), t.submitted[|t.wire| + k])
    {
      RunShifts(s.hwIndex, k);
      assert Carries(s, Slot(s.hwIndex, k + 1), s.submitted[|s.wire| + (k + 1)]);
    }
  }

  lemma StepKeeps(s: State, a: Action)
    requires Inv(s) && Enabled(s, a)
    ensures Inv(Next(s, a))
  {
    hide Slot, Owned, Length, OwnedRun, Frames;
    match a
    case BeginTx(_) => SameRing(s, Next(s, a));
    case Poll => PollKeeps(s);
    case CopyByte => CopyByteKeeps(s);
    case Publish => PublishKeeps(s);
    case Advance => SameRing(s, Next(s, a));
    case HwByte => HwByteKeeps(s);
    case HwDone =>
      HwDoneFrame(s);
      HwDoneOwnedRun(s);
      HwDoneFrames(s);
  }

  // ---------- Every interleaving ----------

  predicate Runs(s: State, actions: seq<Action>)
    decreases |actions|
  {
    actions == [] ||
    (Shaped(s) && Enabled(s, actions[0]) && Runs(Next(s, actions[0]), actions[1..]))
  }

  function Final(s: State, actions: seq<Action>): State
    requires Runs(s, actions)
    decreases |actions|
  {
    if actions == [] then s else Final(Next(s, actions[0]), actions[1..])
  }

  lemma InitialInv(s: State)
    requires Initial(s)
    ensures Inv(s)
  {
    hide Slot, Owned;
    SlotWraps(0);
    OwnedBit(0);
  }

  lemma {:induction false} RunKeeps(s: State, actions: seq<Action>)
    requires Inv(s) && Runs(s, actions)
    ensures Inv(Final(s, actions))
    decreases |actions|
  {
    hide Inv, Next, Enabled;
    if actions != [] {
      StepKeeps(s, actions[0]);
      RunKeeps(Next(s, actions[0]), actions[1..]);
    }
  }

  /** Whatever the interleaving, the frames on the wire are the first packets submitted, whole and in
      call order; the rest are in flight, at most one per descriptor. */
  lemma FramesInOrder(start: State, actions: seq<Action>)
    requires Initial(start) && Runs(start, actions)
    ensures
      var s := Final(start, actions);
      && s.wire <= s.submitted
      && |s.submitted| <= |s.wire| + RING_SIZE
  {
    InitialInv(start);
    RunKeeps(start, actions);
  }

  /** Whenever the driver writes a byte of a buffer, the hardware does not own that buffer. */
  lemma NoWriteWhileOwned(start: State, actions: seq<Action>)
    requires Initial(start) && Runs(start, actions)
    requires Shaped(Final(start, actions)) && Enabled(Final(start, actions), CopyByte)
    ensures
      var s := Final(start, actions);
      !Owned(s.td2[s.txIdx])
  {
    hide Slot, Owned;
    InitialInv(start);
    RunKeeps(start, actions);
  }

  /** The hardware owns exactly one cyclic run of slots, and it ends where the next packet goes. */
  lemma OwnedSlotsAreARun(start: State, actions: seq<Action>)
    requires Initial(start) && Runs(start, actions)
    ensures
      var s := Final(start, actions);
      && Shaped(s)
      && exists n :: 0 <= n <= RING_SIZE && Slot(s.hwIndex, n) == WriteSlot(s) &&
           forall k :: 0 <= k < RING_SIZE ==> (Owned(s.td2[Slot(s.hwIndex, k)]) <==> k < n)
  {
    hide Slot, Owned;
    InitialInv(start);
    RunKeeps(start, actions);
    var s := Final(start, actions);
    assert Slot(s.hwIndex, Pending(s)) == WriteSlot(s);
  }

  // ---------- The call ----------

  /** The slot that blocks the caller is the one the hardware is reading: the ring is full. */
  lemma BlockedByFirst(s: State)
    requires Inv(s) && !s.sender.Published? && Owned(s.td2[s.txIdx])
    ensures Pending(s) == 32 && forall i :: 0 <= i < 32 ==> Owned(s.td2[i])
    ensures s.hwIndex == s.txIdx && |s.hwSent| <= Length(s.td2[s.hwIndex]) <= 1536
  {
    hide Slot, Owned, Length, Carries;
    SlotWraps(s.hwIndex);
    PendingBounds(s);
    if Pending(s) < RING_SIZE {
      FreeSlot(s);
    } else {
      FirstLength(s);
      AllOwned(s);
    }
  }

  lemma AllOwned(s: State)
    requires Inv(s) && Pending(s) == RING_SIZE
    ensures forall i :: 0 <= i < RING_SIZE ==> Owned(s.td2[i])
  {
    hide Owned, Slot;
    forall i | 0 <= i < RING_SIZE ensures Owned(s.td2[i]) {
      SlotReached(s.hwIndex, i);
      assert Owned(s.td2[Slot(s.hwIndex, (i - s.hwIndex) % RING_SIZE)]);
    }
  }

  lemma SlotReached(base: nat, i: nat)
    requires i < RING_SIZE
    ensures Slot(base, (i - base) % RING_SIZE) == i
  {
    var k, q := (i - base) % RING_SIZE, (i - base) / RING_SIZE;
    assert base + k == RING_SIZE * (-q) + i;
  }

  lemma FreeSlot(s: State)
    requires Inv(s) && !s.sender.Published? && Pending(s) < RING_SIZE
    ensures !Owned(s.td2[s.txIdx])
  {
    hide Slot, Owned, Length, Carries;
    assert s.txIdx == Slot(s.hwIndex, Pending(s));
  }

  lemma FirstLength(s: State)
    requires Inv(s) && Owned(s.td2[s.hwIndex])
    ensures |s.hwSent| <= Length(s.td2[s.hwIndex]) <= BUFFER_SIZE
  {
    hide Slot, Owned, Length, OwnedRun;
    FirstSlot(s);
  }

  lemma CopiedWhole(s: State)
    requires Inv(s) && s.sender.Copying? && s.sender.copied == |s.sender.pkt|
    ensures s.buffers[s.txIdx][..|s.sender.pkt|] == s.sender.pkt
  {
    assert s.sender.pkt[..|s.sender.pkt|] == s.sender.pkt;
  }

  /** The driver's variables and the hardware's place in the ring; `model` is the state whose steps the
      call and the hardware take. */
  class EnetRing {
    var td2: seq<nat>
    var txBuf: seq<seq<Byte>>
    var txIdx: nat
    var hwIndex: nat
    var hwSent: seq<Byte>
    ghost var model: State

    ghost predicate Valid()
      reads this
    {
      && td2 == model.td2 && txBuf == model.buffers && txIdx == model.txIdx
      && hwIndex == model.hwIndex && hwSent == model.hwSent && Shaped(model) && Inv(model)
    }

    /** enet_init_desc */
    constructor ()
      ensures Valid() && Initial(model)
    {
      td2, txIdx, hwIndex, hwSent := seq(RING_SIZE, _ => 0), 0, 0, [];
      txBuf := seq(RING_SIZE, _ => seq(BUFFER_SIZE, _ => 0));
      model := State(td2, txBuf, 0, NotSending, 0, [], [], []);
      new;
      OwnedBit(0);
      InitialInv(model);
    }

    /** One step of the hardware with a frame to send: a byte of it, or the end of it. */
    method HardwareStep()
      requires Valid() && Owned(td2[hwIndex]) && |hwSent| <= Length(td2[hwIndex]) <= BUFFER_SIZE
      modifies this`td2, this`hwIndex, this`hwSent, this`model
      ensures Valid() && model.sender == old(model.sender) && model.submitted == old(model.submitted)
      ensures if old(|hwSent| < Length(td2[hwIndex]))
              then td2 == old(td2) && hwIndex == old(hwIndex) && |hwSent| == old(|hwSent|) + 1 &&
                   model.wire == old(model.wire)
              else !Owned(td2[old(hwIndex)]) && model.wire == old(model.wire) + [old(hwSent)]
    {
      hide Inv, Owned, Length;
      if |hwSent| < Length(td2[hwIndex]) {
        Step(HwByte);
        hwSent := hwSent + [txBuf[hwIndex][|hwSent|]];
      } else {
        HwDoneFrame(model);
        Step(HwDone);
        td2 := td2[hwIndex := Length(td2[hwIndex])];
        hwIndex, hwSent := Slot(hwIndex, 1), [];
      }
    }

    /** The wait of enet_tx, with the hardware taking a step for every turn: it ends. */
    method WaitForSlot(pkt: seq<Byte>)
      requires Valid() && model.sender == Waiting(pkt)
      modifies this`td2, this`hwIndex, this`hwSent, this`model
      ensures Valid() && !Owned(td2[txIdx]) && model.sender == Waiting(pkt)
      ensures model.submitted == old(model.submitted) && old(model.wire) <= model.wire
    {
      hide Inv, Owned, Length;
      while Owned(td2[txIdx])
        invariant Valid() && model.sender == Waiting(pkt)
        invariant model.submitted == old(model.submitted) && old(model.wire) <= model.wire
        decreases if Owned(td2[txIdx]) then 1 + Length(td2[hwIndex]) - |hwSent| else 0
      {
        BlockedByFirst(model);
        HardwareStep();
      }
    }

    /** The memcpy of enet_tx. */
    method CopyPacket(pkt: seq<Byte>)
      requires Valid() && model.sender == Copying(pkt, 0) && |pkt| <= BUFFER_SIZE
      modifies this`txBuf, this`model
      ensures Valid() && model.sender == Copying(pkt, |pkt|) && txBuf[txIdx][..|pkt|] == pkt
      ensures model.submitted == old(model.submitted) && model.wire == old(model.wire)
    {
      hide Inv, Owned, Length;
      for i := 0 to |pkt|
        invariant Valid() && model.sender == Copying(pkt, i)
        invariant model.submitted == old(model.submitted) && model.wire == old(model.wire)
      {
        Step(CopyByte);
        txBuf := txBuf[txIdx := txBuf[txIdx][i := pkt[i]]];
      }
      CopiedWhole(model);
    }

    /** enet_tx: the packet is handed over behind all earlier ones, whatever the hardware owned. */
    method Tx(pkt: seq<Byte>)
      requires Valid() && model.sender.NotSending? && |pkt| <= BUFFER_SIZE
      modifies this
      ensures Valid() && model.sender.NotSending? && model.submitted == old(model.submitted) + [pkt]
      ensures old(model.wire) <= model.wire
      ensures td2[old(txIdx)] == 0x8000 + |pkt| && txBuf[old(txIdx)][..|pkt|] == pkt
      ensures txIdx == (old(txIdx) + 1) % 32
    {
      hide Inv, Owned, Length;
      Step(BeginTx(pkt));
      WaitForSlot(pkt);
      Step(Poll);
      CopyPacket(pkt);
      Step(Publish);
      td2 := td2[txIdx := OWNED + |pkt|];
      Step(Advance);
      txIdx := (txIdx + 1) % RING_SIZE;
    }

    /** One step of the model. */
    ghost method Step(a: Action)
      requires Inv(model) && Shaped(model) && Enabled(model, a)
      modifies this`model
      ensures Inv(model) && Shaped(model) && model == Next(old(model), a)
    {
      StepKeeps(model, a);
      model := Next(model, a);
    }
  }
}
